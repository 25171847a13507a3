/**
 * The disk-storage `filename` callback: `<formattedDate>-<fieldname>-<token><ext>`, with the
 * date and the token stored on the request the first time the callback runs for it.
 */
module FileNaming {
  import opened Wrappers
  import opened Strings
  import opened DateStamp

  /** The part of a path after its last '/'. */
  function Basename(name: string): (b: string)
    ensures |b| <= |name| && name[|name| - |b|..] == b
    ensures forall i :: 0 <= i < |b| ==> b[i] != '/'
    ensures |b| < |name| ==> name[|name| - |b| - 1] == '/'
  {
    match LastIndexOf(name, '/')
    case None => name
    case Some(i) => name[i + 1..]
  }

  /** The base name has a '.' somewhere after its first character. */
  ghost predicate HasExtension(b: string) {
    exists i :: 1 <= i < |b| && b[i] == '.'
  }

  /**
   * `path.extname(name)`: from the last '.' of the base name to the end, or "" when the base
   * name has no '.' after its first character.
   */
  function ExtName(name: string): (ext: string)
    ensures |ext| <= |name| && name[|name| - |ext|..] == ext
    ensures ext != [] <==> HasExtension(Basename(name))
    ensures ext != [] ==> ext[0] == '.' && forall i :: 1 <= i < |ext| ==> ext[i] != '.' && ext[i] != '/'
  {
    var b := Basename(name);
    var ext := ExtOfBasename(b);
    SuffixOfSuffix(name, b, ext);
    ext
  }

  /** A suffix of a suffix of `s` is a suffix of `s`. */
  lemma SuffixOfSuffix(s: string, b: string, e: string)
    requires |b| <= |s| && s[|s| - |b|..] == b
    requires |e| <= |b| && b[|b| - |e|..] == e
    ensures s[|s| - |e|..] == e
  {
    assert s[|s| - |e|..] == s[|s| - |b|..][|b| - |e|..];
  }

  /** The extension of a base name: from its last '.' on, unless that '.' is its first character. */
  function ExtOfBasename(b: string): (ext: string)
    ensures |ext| <= |b| && b[|b| - |ext|..] == ext
    ensures ext != [] <==> HasExtension(b)
    ensures ext != [] ==> ext[0] == '.' && forall i :: 1 <= i < |ext| ==> ext[i] != '.'
  {
    match LastIndexOf(b, '.')
    case None => []
    case Some(j) => if j == 0 then [] else b[j..]
  }

  lemma ExtOfBasenameToLower(b: string)
    ensures ExtOfBasename(ToLower(b)) == ToLower(ExtOfBasename(b))
  {
    LastIndexOfToLower(b, '.');
    match LastIndexOf(b, '.')
    case None =>
    case Some(j) => ToLowerSlice(b, j, |b|);
  }

  lemma BasenameToLower(name: string)
    ensures Basename(ToLower(name)) == ToLower(Basename(name))
  {
    LastIndexOfToLower(name, '/');
    match LastIndexOf(name, '/')
    case None =>
    case Some(i) => ToLowerSlice(name, i + 1, |name|);
  }

  /** The extension of the lower-cased name is the lower-cased extension. */
  lemma ExtNameToLower(name: string)
    ensures ExtName(ToLower(name)) == ToLower(ExtName(name))
  {
    BasenameToLower(name);
    ExtOfBasenameToLower(Basename(name));
  }

  /** A plain file name `stem.ext`: the extension is everything from its only '.' on. */
  lemma ExtNameOfPlainName(stem: string, ext: string)
    requires |stem| >= 1 && forall i :: 0 <= i < |stem| ==> stem[i] != '/'
    requires |ext| >= 1 && ext[0] == '.'
    requires forall i :: 1 <= i < |ext| ==> ext[i] != '.' && ext[i] != '/'
    ensures ExtName(stem + ext) == ext
  {
    var name := stem + ext;
    assert Basename(name) == name;
    var dot := LastIndexOf(name, '.');
    assert name[|stem|] == '.';
    assert forall j :: |stem| < j < |name| ==> name[j] == ext[j - |stem|];
    assert dot == Some(|stem|);
    assert name[|stem|..] == ext;
  }

  /** The exclusive upper bound of a token: `Math.floor(Math.random() * 1e9)` stays below 1e9. */
  const TokenBound: nat := 1000000000

  /** `Math.floor(random * 1e9)` for a draw `random` of `Math.random()`, in exact arithmetic. */
  function TokenFromRandom(random: real): (token: nat)
    requires 0.0 <= random < 1.0
    ensures token < TokenBound
    ensures token as real <= random * 1000000000.0 < token as real + 1.0
  {
    (random * 1000000000.0).Floor
  }

  /** What follows the date in a file name: `-<fieldname>-<token><ext>`. */
  function Label(field: string, token: nat, ext: string): string {
    "-" + field + "-" + DecimalString(token) + ext
  }

  /** The stored file name `<formattedDate>-<fieldname>-<token><ext>`. */
  function FileName(formattedDate: string, field: string, token: nat, ext: string): (name: string)
    ensures |name| == |formattedDate| + |field| + |DecimalString(token)| + |ext| + 2
    ensures formattedDate <= name && name[|formattedDate|] == '-'
    ensures name[|name| - |ext|..] == ext
  {
    formattedDate + Label(field, token, ext)
  }

  /** The two form fields the upload route accepts files under. */
  predicate IsUploadField(field: string) {
    field == "front" || field == "back"
  }

  /** An extension as `ExtName` returns it can follow the token without being read as digits. */
  predicate IsExtensionShaped(ext: string) {
    ext == [] || ext[0] == '.'
  }

  datatype FileNameParts = FileNameParts(date: DateParts, field: string, token: nat, ext: string)

  /** Reads a stored file name back into its date, field, token and extension. */
  function ParseFileName(s: string): Option<FileNameParts> {
    var k := DigitSpan(s);
    if |s| < k + 12 then None
    else
      match ParseFormattedDate(s[..k + 12])
      case None => None
      case Some(d) =>
        match ParseLabel(s[k + 12..])
        case None => None
        case Some(l) => Some(FileNameParts(d, l.0, l.1, l.2))
  }

  function ParseLabel(r: string): Option<(string, nat, string)> {
    if "-front-" <= r then ParseTokenExt("front", r[7..])
    else if "-back-" <= r then ParseTokenExt("back", r[6..])
    else None
  }

  function ParseTokenExt(field: string, u: string): Option<(string, nat, string)> {
    var n := DigitSpan(u);
    if !IsCanonicalDecimal(u[..n]) || !IsExtensionShaped(u[n..]) then None
    else Some((field, ParseDecimal(u[..n]), u[n..]))
  }

  lemma LabelRoundTrip(field: string, token: nat, ext: string)
    requires IsUploadField(field) && IsExtensionShaped(ext)
    ensures ParseLabel(Label(field, token, ext)) == Some((field, token, ext))
  {
    var digits := DecimalString(token);
    var u := digits + ext;
    var prefix := "-" + field + "-";
    assert Label(field, token, ext) == prefix + u;
    assert (prefix + u)[|prefix|..] == u;
    DigitSpanOfConcat(digits, ext);
    assert u[..|digits|] == digits && u[|digits|..] == ext;
    DecimalRoundTrip(token);
    assert ParseTokenExt(field, u) == Some((field, token, ext));
    ParseLabelOfField(field, u);
  }

  /** The label parser recognises the field and hands the rest to the token parser. */
  lemma ParseLabelOfField(field: string, u: string)
    requires IsUploadField(field)
    ensures ParseLabel("-" + field + "-" + u) == ParseTokenExt(field, u)
  {
    var r := "-" + field + "-" + u;
    if field == "front" {
      assert r[..7] == "-front-" && r[7..] == u;
    } else {
      assert r[1] == 'b';
      assert r[..6] == "-back-" && r[6..] == u;
    }
  }

  /** The parser splits a name after the twelve characters that follow the year's digits. */
  lemma ParseFileNameSplit(y: string, t: string, r: string)
    requires IsCanonicalDecimal(y) && |t| == 12 && t[0] == '_'
    ensures ParseFileName(y + t + r) ==
      match ParseFormattedDate(y + t)
      case None => None
      case Some(d) =>
        match ParseLabel(r)
        case None => None
        case Some(l) => Some(FileNameParts(d, l.0, l.1, l.2))
  {
    var s := y + t + r;
    assert s == y + (t + r);
    DigitSpanOfConcat(y, t + r);
    assert s[..|y| + 12] == y + t;
    assert s[|y| + 12..] == r;
  }

  /** Every name the callback can build is read back into the parts it was built from. */
  lemma FileNameRoundTrip(d: DateParts, field: string, token: nat, ext: string)
    requires InRange(d) && IsUploadField(field) && IsExtensionShaped(ext)
    ensures ParseFileName(FileName(FormatDate(d), field, token, ext))
            == Some(FileNameParts(d, field, token, ext))
  {
    var y := DecimalString(d.year);
    DateTailLength(d);
    TailStartsWithUnderscore(Pad2(d.month + 1), Pad2(d.day), Pad2(d.hour), Pad2(d.minute));
    assert FileName(FormatDate(d), field, token, ext) == y + DateTail(d) + Label(field, token, ext);
    ParseFileNameSplit(y, DateTail(d), Label(field, token, ext));
    FormatDateRoundTrip(d);
    LabelRoundTrip(field, token, ext);
  }

  lemma ParsedTokenExtFormatsBack(field: string, u: string)
    requires ParseTokenExt(field, u).Some?
    ensures var l := ParseTokenExt(field, u).value;
      l.0 == field && IsExtensionShaped(l.2) && Label(field, l.1, l.2) == "-" + field + "-" + u
  {
    var n := DigitSpan(u);
    CanonicalDecimalRoundTrip(u[..n]);
    assert u == u[..n] + u[n..];
    var l := ParseTokenExt(field, u).value;
    assert DecimalString(l.1) + l.2 == u;
  }

  lemma ParsedLabelFormatsBack(r: string)
    requires ParseLabel(r).Some?
    ensures var l := ParseLabel(r).value;
      IsUploadField(l.0) && IsExtensionShaped(l.2) && Label(l.0, l.1, l.2) == r
  {
    if "-front-" <= r {
      ParsedTokenExtFormatsBack("front", r[7..]);
      assert r == "-" + "front" + "-" + r[7..];
    } else {
      ParsedTokenExtFormatsBack("back", r[6..]);
      assert r == "-" + "back" + "-" + r[6..];
    }
  }

  /** An accepted name splits into a date and a label that the two parsers accept. */
  lemma ParsedFileNameSplit(s: string) returns (date: string, rest: string)
    requires ParseFileName(s).Some?
    ensures s == date + rest
    ensures ParseFormattedDate(date).Some? && ParseLabel(rest).Some?
    ensures var d, l := ParseFormattedDate(date).value, ParseLabel(rest).value;
      ParseFileName(s).value == FileNameParts(d, l.0, l.1, l.2)
  {
    var k := DigitSpan(s);
    date, rest := s[..k + 12], s[k + 12..];
  }

  /** Whatever the name parser accepts is exactly the name built from the parts it returns. */
  lemma ParsedFileNameFormatsBack(s: string)
    requires ParseFileName(s).Some?
    ensures var p := ParseFileName(s).value;
      FileName(FormatDate(p.date), p.field, p.token, p.ext) == s
  {
    var date, rest := ParsedFileNameSplit(s);
    var d := ParseFormattedDate(date).value;
    var l := ParseLabel(rest).value;
    ParsedDateFormatsBack(date);
    ParsedLabelFormatsBack(rest);
    assert FileName(FormatDate(d), l.0, l.1, l.2) == date + rest;
  }

  /** The file names of one upload are pairwise distinct unless all their parts agree. */
  lemma FileNameInjective(d1: DateParts, f1: string, t1: nat, e1: string,
                          d2: DateParts, f2: string, t2: nat, e2: string)
    requires InRange(d1) && IsUploadField(f1) && IsExtensionShaped(e1)
    requires InRange(d2) && IsUploadField(f2) && IsExtensionShaped(e2)
    requires FileName(FormatDate(d1), f1, t1, e1) == FileName(FormatDate(d2), f2, t2, e2)
    ensures d1 == d2 && f1 == f2 && t1 == t2 && e1 == e2
  {
    FileNameRoundTrip(d1, f1, t1, e1);
    FileNameRoundTrip(d2, f2, t2, e2);
  }

  /** The multipart file part as the callbacks see it. */
  datatype FileInfo = FileInfo(fieldname: string, originalname: string, mimetype: string)

  /** The two request fields the callback stores: `req.uploadRequestId` and `req.formattedDate`. */
  datatype Stash = Stash(uploadRequestId: Option<nat>, formattedDate: Option<string>)

  /** Both fields are set together and cleared together. */
  predicate StashValid(s: Stash) {
    s.uploadRequestId.Some? == s.formattedDate.Some?
  }

  /** JavaScript truthiness of the stored token: unset, null and 0 are all false. */
  predicate Truthy(id: Option<nat>) {
    id.Some? && id.value != 0
  }

  /** The stash after one run of the callback: kept when the token is truthy, otherwise drawn afresh. */
  function Stamp(s: Stash, now: DateParts, random: real): (r: Stash)
    requires StashValid(s) && 0.0 <= random < 1.0
    ensures StashValid(r) && r.uploadRequestId.Some?
    ensures Truthy(s.uploadRequestId) ==> r == s
    ensures !Truthy(s.uploadRequestId) ==>
      r.uploadRequestId.value == TokenFromRandom(random) && r.formattedDate.value == FormatDate(now)
  {
    if Truthy(s.uploadRequestId) then s
    else Stash(Some(TokenFromRandom(random)), Some(FormatDate(now)))
  }

  /** The name the callback hands back for `file` once the stash is set. */
  function NameFor(s: Stash, file: FileInfo): (name: string)
    requires s.uploadRequestId.Some? && s.formattedDate.Some?
    ensures s.formattedDate.value <= name
    ensures var ext := ExtName(file.originalname);
      |ext| < |name| && name[|name| - |ext|..] == ext
  {
    FileName(s.formattedDate.value, file.fieldname, s.uploadRequestId.value, ExtName(file.originalname))
  }

  /** Once the stash holds a truthy token, later callbacks of the same request keep it. */
  lemma StampKeptOnceSet(s: Stash, now1: DateParts, r1: real, now2: DateParts, r2: real)
    requires StashValid(s) && 0.0 <= r1 < 1.0 && 0.0 <= r2 < 1.0
    requires Truthy(Stamp(s, now1, r1).uploadRequestId)
    ensures Stamp(Stamp(s, now1, r1), now2, r2) == Stamp(s, now1, r1)
  {
  }

  /** A stored token of 0 counts as unset: the next callback draws a new token and date. */
  lemma ZeroTokenIsRedrawn(date: string, now: DateParts, random: real)
    requires 0.0 <= random < 1.0
    ensures Stamp(Stash(Some(0), Some(date)), now, random)
            == Stash(Some(TokenFromRandom(random)), Some(FormatDate(now)))
  {
  }

  /**
   * The two files of one request, in whichever order their parts arrive (first callback on a
   * fresh request, second callback on what the first left), carry the same date and token,
   * and differ only in their field and extension.
   */
  lemma PairedNamesShareStamp(first: FileInfo, second: FileInfo,
                              now1: DateParts, r1: real, now2: DateParts, r2: real)
    requires IsUploadField(first.fieldname) && IsUploadField(second.fieldname)
    requires InRange(now1) && 0.0 <= r1 < 1.0 && 0.0 <= r2 < 1.0
    requires TokenFromRandom(r1) != 0
    ensures var s1 := Stamp(Stash(None, None), now1, r1);
            var s2 := Stamp(s1, now2, r2);
            var token := TokenFromRandom(r1);
            ParseFileName(NameFor(s1, first))
              == Some(FileNameParts(now1, first.fieldname, token, ExtName(first.originalname)))
            && ParseFileName(NameFor(s2, second))
              == Some(FileNameParts(now1, second.fieldname, token, ExtName(second.originalname)))
  {
    var token := TokenFromRandom(r1);
    FileNameRoundTrip(now1, first.fieldname, token, ExtName(first.originalname));
    FileNameRoundTrip(now1, second.fieldname, token, ExtName(second.originalname));
  }

  /** The request object, with the fields the `filename` callback reads and writes. */
  class UploadRequest {
    /** `req.body.user`, parsed from the form before the file parts. */
    const user: Option<string>
    var uploadRequestId: Option<nat>
    var formattedDate: Option<string>

    function CurrentStash(): Stash
      reads this
    {
      Stash(uploadRequestId, formattedDate)
    }

    ghost predicate Valid()
      reads this
    {
      StashValid(CurrentStash())
    }

    constructor (user: Option<string>)
      ensures Valid() && this.user == user && CurrentStash() == Stash(None, None)
    {
      this.user := user;
      uploadRequestId := None;
      formattedDate := None;
    }

    /** The `filename` callback. */
    method Filename(file: FileInfo, now: DateParts, random: real) returns (name: string)
      requires Valid() && 0.0 <= random < 1.0
      modifies this
      ensures Valid()
      ensures CurrentStash() == Stamp(old(CurrentStash()), now, random)
      ensures name == NameFor(CurrentStash(), file)
    {
      if !Truthy(uploadRequestId) {
        var date := FormatDate(now);
        uploadRequestId := Some(TokenFromRandom(random));
        formattedDate := Some(date);
      }
      name := FileName(formattedDate.value, file.fieldname, uploadRequestId.value,
                       ExtName(file.originalname));
    }

    /** The upload handler's reset of both fields to null after a successful save. */
    method ClearStash()
      modifies this
      ensures Valid() && CurrentStash() == Stash(None, None)
    {
      uploadRequestId := None;
      formattedDate := None;
    }
  }
}
