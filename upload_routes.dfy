/** The image upload route: multer's file filter, its size limit, the name
    a stored file gets and the URL the handler answers with. The uuid is a
    parameter; the disk write is not modelled. */
module UploadRoutes {
  import opened Common
  import opened Text
  import opened Helper

  /** What multer knows of an incoming file part. */
  datatype IncomingFile = IncomingFile(originalname: string, mimetype: string, size: nat)

  /** `limits.fileSize`: 5 MiB. */
  const MaxFileSize: nat := 5 * 1024 * 1024

  // ------------------------------------------------------- path.extname

  /** A path without the slashes at its end. */
  function StripTrailingSlashes(p: string): (r: string)
    ensures |r| <= |p| && r == p[..|r|]
    ensures r == [] || r[|r| - 1] != '/'
    ensures forall i :: |r| <= i < |p| ==> p[i] == '/'
  {
    if p != [] && p[|p| - 1] == '/' then StripTrailingSlashes(p[..|p| - 1]) else p
  }

  /** The last component of a POSIX path (`path.basename`). */
  function BaseName(p: string): (b: string)
    ensures '/' !in b
  {
    var t := StripTrailingSlashes(p);
    if '/' in t then t[LastIndexOf(t, '/') + 1..] else t
  }

  /** The extension of one path component: from its last '.' to its end;
      nothing when it has no '.', when that '.' is its first character, or
      when it is "..". */
  function ComponentExt(b: string): (ext: string)
    ensures |ext| <= |b|
    ensures ext == [] || (ext[0] == '.' && '.' !in ext[1..] && ext == b[|b| - |ext|..])
  {
    if '.' !in b then ""
    else
      var k := LastIndexOf(b, '.');
      if k == 0 || b == ".." then "" else b[k..]
  }

  /** `path.extname` on POSIX: the extension of the last path component. */
  function ExtName(p: string): (ext: string)
    ensures ext == [] || (ext[0] == '.' && '.' !in ext[1..] && '/' !in ext)
  {
    ComponentExt(BaseName(p))
  }

  /** Under a directory ending in '/', a file name is its own last component. */
  lemma BaseNameUnder(dir: string, file: string)
    requires dir == [] || dir[|dir| - 1] == '/'
    requires file != [] && '/' !in file
    ensures BaseName(dir + file) == file
  {
    var p := dir + file;
    assert p[|p| - 1] == file[|file| - 1];
    assert StripTrailingSlashes(p) == p;
    assert forall j :: |dir| <= j < |p| ==> p[j] == file[j - |dir|];
    if '/' in p {
      var k := LastIndexOf(p, '/');
      assert forall j :: k < j < |p| ==> p[k + 1..][j - (k + 1)] == p[j];
      assert p[|dir| - 1] == '/';
      assert k == |dir| - 1;
      assert p[k + 1..] == file;
    }
  }

  /** Prefixing a directory ending in '/' does not change a file's extension. */
  lemma ExtNameUnder(dir: string, file: string)
    requires dir == [] || dir[|dir| - 1] == '/'
    requires file != [] && '/' !in file
    ensures ExtName(dir + file) == ExtName(file)
  {
    BaseNameUnder(dir, file);
    BaseNameUnder([], file);
    assert [] + file == file;
  }

  /** A component `stem.e`, with no '.' in `e` and a stem other than "" and
      ".", has extension `.e`. */
  lemma ComponentExtOf(stem: string, e: string)
    requires stem != [] && stem != "." && '.' !in e
    ensures ComponentExt(stem + ['.'] + e) == ['.'] + e
  {
    var b := stem + ['.'] + e;
    assert b[|stem|] == '.';
    assert b[|stem| + 1..] == e;
    LastIndexOfIs(b, '.', |stem|);
    assert b[|stem|..] == ['.'] + e;
    assert b[0] == stem[0];
    assert |stem| == 1 ==> stem == [stem[0]];
  }

  /** A file named `stem.e` has extension `.e`. */
  lemma ExtNameOf(stem: string, e: string)
    requires stem != [] && stem != "." && '/' !in stem
    requires '.' !in e && '/' !in e
    ensures ExtName(stem + ['.'] + e) == ['.'] + e
  {
    var file := stem + ['.'] + e;
    assert '/' !in file;
    BaseNameUnder([], file);
    assert [] + file == file;
    ComponentExtOf(stem, e);
  }

  /** A name without a '.' has no extension. */
  lemma NoDotNoExtName(p: string)
    requires '.' !in p
    ensures ExtName(p) == ""
  {
  }

  // --------------------------------------------------------- fileFilter

  /** `/jpeg|jpg|png|gif|webp/.test(s)`: the pattern is not anchored, so any
      occurrence counts. */
  predicate AllowedType(s: string) {
    HasSubstring(s, "jpeg") || HasSubstring(s, "jpg") || HasSubstring(s, "png")
    || HasSubstring(s, "gif") || HasSubstring(s, "webp")
  }

  /** multer's `fileFilter`: `None` when the file is accepted, otherwise the
      error it is refused with. The extension is lowercased before the test;
      the MIME type is tested as sent. */
  function FileFilter(file: IncomingFile): (error: Option<string>)
    ensures error.None? <==> AllowedType(Lower(ExtName(file.originalname))) && AllowedType(file.mimetype)
    ensures error.Some? ==> error.value == "Only image files are allowed"
  {
    var extname := AllowedType(Lower(ExtName(file.originalname)));
    var mimetype := AllowedType(file.mimetype);
    if mimetype && extname then None else Some("Only image files are allowed")
  }

  /** A string none of whose characters is `t`'s first does not contain `t`. */
  lemma NoFirstCharNoSubstring(s: string, t: string)
    requires t != [] && t[0] !in s
    ensures !HasSubstring(s, t)
  {
  }

  /** A string with none of the letters j, p, g, w matches no allowed type. */
  lemma NoAllowedType(s: string)
    requires 'j' !in s && 'p' !in s && 'g' !in s && 'w' !in s
    ensures !AllowedType(s)
  {
    NoFirstCharNoSubstring(s, "jpeg");
    NoFirstCharNoSubstring(s, "jpg");
    NoFirstCharNoSubstring(s, "png");
    NoFirstCharNoSubstring(s, "gif");
    NoFirstCharNoSubstring(s, "webp");
  }

  /** Only a file with an extension passes the filter. */
  lemma AcceptedFileHasExtension(file: IncomingFile)
    requires FileFilter(file).None?
    ensures ExtName(file.originalname) != ""
  {
    if ExtName(file.originalname) == "" {
      assert Lower("") == "";
      NoAllowedType("");
    }
  }

  /** `t` occurs in `s` at `i`. */
  lemma OccursAt(s: string, t: string, i: nat)
    requires i <= |s| && t <= s[i..]
    ensures HasSubstring(s, t)
  {
  }

  /** "image/png" passes the MIME test. */
  lemma ImagePngAllowed()
    ensures AllowedType("image/png")
  {
    OccursAt("image/png", "png", 6);
  }

  /** A file `stem.e` is accepted when its lowercased extension and its
      MIME type both pass the test. */
  lemma NamedFileAccepted(stem: string, e: string, mimetype: string, size: nat)
    requires stem != [] && stem != "." && '/' !in stem
    requires '.' !in e && '/' !in e
    requires AllowedType(Lower(['.'] + e)) && AllowedType(mimetype)
    ensures FileFilter(IncomingFile(stem + ['.'] + e, mimetype, size)).None?
  {
    ExtNameOf(stem, e);
  }

  /** The extension test ignores letter case: "photo.PNG" sent as image/png
      is accepted. */
  lemma UpperCaseExtensionAccepted()
    ensures FileFilter(IncomingFile("photo" + ['.'] + "PNG", "image/png", 1000)).None?
  {
    assert AllowedType(Lower(['.'] + "PNG")) by {
      assert Lower(['.'] + "PNG") == ".png";
      OccursAt(".png", "png", 1);
    }
    ImagePngAllowed();
    NamedFileAccepted("photo", "PNG", "image/png", 1000);
  }

  /** The MIME test is case-sensitive: "photo.png" sent as IMAGE/PNG is refused. */
  lemma UpperCaseMimeTypeRefused()
    ensures FileFilter(IncomingFile("photo.png", "IMAGE/PNG", 1000)) == Some("Only image files are allowed")
  {
    NoAllowedType("IMAGE/PNG");
  }

  /** The pattern is unanchored: an extension that merely contains "png" passes. */
  lemma UnanchoredExtensionAccepted()
    ensures FileFilter(IncomingFile("notes" + ['.'] + "pngx", "image/png", 1000)).None?
  {
    assert AllowedType(Lower(['.'] + "pngx")) by {
      assert Lower(['.'] + "pngx") == ".pngx";
      OccursAt(".pngx", "png", 1);
    }
    ImagePngAllowed();
    NamedFileAccepted("notes", "pngx", "image/png", 1000);
  }

  // ------------------------------------------------------ naming and URL

  /** The `filename` rule: a uuid followed by the original extension, its
      case kept. */
  function StoredFilename(uuid: string, originalname: string): (name: string)
    ensures uuid <= name
  {
    uuid + ExtName(originalname)
  }

  /** `/uploads/<filename>`, the URL the handler answers with. */
  function ImageUrl(filename: string): (url: string)
    ensures "/uploads/" <= url && url[|"/uploads/"|..] == filename
  {
    "/uploads/" + filename
  }

  /** A uuid has no '.' and no '/'. */
  predicate UuidShaped(uuid: string) {
    uuid != [] && '.' !in uuid && '/' !in uuid
  }

  /** The stored file, and the URL pointing at it, keep the original
      extension exactly. */
  lemma StoredFilenameKeepsExtension(uuid: string, originalname: string)
    requires UuidShaped(uuid)
    ensures ExtName(StoredFilename(uuid, originalname)) == ExtName(originalname)
    ensures ExtName(ImageUrl(StoredFilename(uuid, originalname))) == ExtName(originalname)
  {
    StoredFilenameExtension(uuid, originalname);
    ExtNameUnder("/uploads/", StoredFilename(uuid, originalname));
  }

  /** The stored name has no '/' and the original name's extension. */
  lemma StoredFilenameExtension(uuid: string, originalname: string)
    requires UuidShaped(uuid)
    ensures '/' !in StoredFilename(uuid, originalname)
    ensures ExtName(StoredFilename(uuid, originalname)) == ExtName(originalname)
  {
    UuidWithExtension(uuid, ExtName(originalname));
  }

  /** A uuid followed by an extension has that extension. */
  lemma UuidWithExtension(uuid: string, ext: string)
    requires UuidShaped(uuid)
    requires ext == [] || (ext[0] == '.' && '.' !in ext[1..] && '/' !in ext)
    ensures '/' !in uuid + ext
    ensures ExtName(uuid + ext) == ext
  {
    if ext == [] {
      assert uuid + ext == uuid;
      NoDotNoExtName(uuid);
    } else {
      var e := ext[1..];
      assert uuid + ext == uuid + ['.'] + e;
      ExtNameOf(uuid, e);
    }
  }


  // ------------------------------------------------------------ handler

  /** How an upload request ends: refused inside multer (the error goes on to
      Express's error handler), or answered by the route's handler. */
  datatype UploadOutcome = Refused(error: string) | Replied(reply: Reply<string>)

  /** POST /api/upload/image, after authentication: the filter, then the
      size limit, then the handler's own check that a file arrived. */
  function UploadImage(file: Option<IncomingFile>, uuid: string): (r: UploadOutcome)
    ensures file.None? ==> r == Replied(Fail(BadRequest, "No image uploaded"))
    ensures file.Some? && FileFilter(file.value).Some? ==> r == Refused("Only image files are allowed")
    ensures file.Some? && FileFilter(file.value).None? && file.value.size > MaxFileSize ==> r == Refused("File too large")
    ensures r.Replied? && r.reply.status == Ok <==>
      file.Some? && FileFilter(file.value).None? && file.value.size <= MaxFileSize
    ensures r.Replied? && r.reply.status == Ok ==>
      r.reply.body.data == Some(ImageUrl(StoredFilename(uuid, file.value.originalname)))
  {
    match file
    case None => Replied(Fail(BadRequest, "No image uploaded"))
    case Some(f) =>
      match FileFilter(f)
      case Some(error) => Refused(error)
      case None =>
        if f.size > MaxFileSize then Refused("File too large")
        else
          var filename := StoredFilename(uuid, f.originalname);
          Replied(Respond(Ok, "Image uploaded successfully", true, Some(ImageUrl(filename))))
  }

  /** An accepted upload's URL ends with the extension of the file sent. */
  lemma UploadedUrlKeepsExtension(file: IncomingFile, uuid: string)
    requires UuidShaped(uuid)
    requires UploadImage(Some(file), uuid).Replied?
    requires UploadImage(Some(file), uuid).reply.status == Ok
    ensures ExtName(UploadImage(Some(file), uuid).reply.body.data.value) == ExtName(file.originalname)
    ensures ExtName(file.originalname) != ""
  {
    StoredFilenameKeepsExtension(uuid, file.originalname);
    AcceptedFileHasExtension(file);
  }
}
