/** The `multer-s3` configuration of `uploadMiddleware.js`: the `key` callback that names each
    uploaded object, the `fileFilter` that admits only images, and the size limit. The
    callbacks' `cb(null, value)` is modelled as returning the value. */
module UploadMiddleware {
  import opened JsText
  import opened ImageConfig

  const RecetasFolder: string := "recetas/"
  const UsuariosFolder: string := "usuarios/"
  const UploadsFolder: string := "uploads/"

  /** The folder the `key` callback chooses from `req.route.path`, by precedence: a path
      mentioning "receta" goes to recetas/, else one mentioning "usuario" to usuarios/,
      anything else to uploads/. */
  function KeyFolder(routePath: string): (folder: string)
    ensures folder in {RecetasFolder, UsuariosFolder, UploadsFolder}
    ensures folder == RecetasFolder <==> Includes(routePath, "receta")
    ensures folder == UsuariosFolder <==>
      !Includes(routePath, "receta") && Includes(routePath, "usuario")
    ensures folder == UploadsFolder <==>
      !Includes(routePath, "receta") && !Includes(routePath, "usuario")
  {
    if Includes(routePath, "receta") then RecetasFolder
    else if Includes(routePath, "usuario") then UsuariosFolder
    else UploadsFolder
  }

  /** `originalname.split('.').pop()`: the text after the last '.', or the whole name when
      it has none. */
  function FileExtension(name: string): (ext: string)
    ensures '.' !in ext && EndsWith(name, ext)
    ensures |ext| == |name| || name[|name| - |ext| - 1] == '.'
  {
    SplitLast(name, '.');
    var parts := Split(name, '.');
    parts[|parts| - 1]
  }

  /** A name without '.' is its own extension. */
  lemma NoDotIsWholeName(name: string)
    requires '.' !in name
    ensures FileExtension(name) == name
  {
    SplitPieceAlone(name, '.');
  }

  /** `${Date.now()}-${uuidv4()}.${ext}`, with the clock reading and the identifier as
      parameters. */
  function FileName(timestamp: nat, uuid: string, originalName: string): string {
    Decimal(timestamp) + "-" + (uuid + "." + FileExtension(originalName))
  }

  /** The clock reading can be recovered from a file name: `parseInt` reads its digits and
      stops at the '-'. */
  lemma FileNameTimestamp(timestamp: nat, uuid: string, originalName: string)
    ensures ParseInt(FileName(timestamp, uuid, originalName)) == Number(timestamp)
  {
    var rest := "-" + (uuid + "." + FileExtension(originalName));
    assert rest[0] == '-';
    assert FileName(timestamp, uuid, originalName) == Decimal(timestamp) + rest;
    ParseIntLeadingNumber(timestamp, rest);
  }

  /** The key handed to `cb`: the chosen folder, then the file name. */
  function ObjectKey(routePath: string, timestamp: nat, uuid: string, originalName: string): (key: string)
    ensures StartsWith(key, KeyFolder(routePath))
    ensures key[|KeyFolder(routePath)|..] ==
      Decimal(timestamp) + "-" + uuid + "." + FileExtension(originalName)
    ensures EndsWith(key, "." + FileExtension(originalName))
  {
    var folder, tail := KeyFolder(routePath), "." + FileExtension(originalName);
    var key := folder + FileName(timestamp, uuid, originalName);
    assert key == folder + (Decimal(timestamp) + "-" + uuid) + tail;
    assert key[..|folder|] == folder;
    assert key[|folder|..] == FileName(timestamp, uuid, originalName);
    assert key[|key| - |tail|..] == tail;
    key
  }

  /** What `fileFilter` tells multer: accept, or reject with the error it passes. */
  datatype FilterResult = Accept | Reject(message: string)

  const NotAnImageText: string := "Solo se permiten archivos de imagen"

  /** `fileFilter`: accepts exactly the media types that start with "image/". */
  function FileFilter(mimetype: string): (r: FilterResult)
    ensures r == Accept <==> StartsWith(mimetype, "image/")
    ensures r != Accept ==> r == Reject(NotAnImageText)
  {
    if StartsWith(mimetype, "image/") then Accept else Reject(NotAnImageText)
  }

  /** `limits.fileSize`: 5 MiB. */
  const UploadSizeLimit: int := 5 * 1024 * 1024

  /** The middleware's limit is the ceiling the service reads from an environment that
      does not set `MAX_FILE_SIZE`: `parseInt('5242880')`. */
  lemma SizeLimitsAgree(env: Env)
    requires !IsSet(env, "MAX_FILE_SIZE")
    ensures LoadConfig(env).maxFileSize == Number(UploadSizeLimit)
  {
    DigitsOfDefault();
    ParseIntDecimal(DefaultMaxFileSize);
  }

  /** Every media type the service allows by default passes the filter. */
  lemma DefaultTypesPassFilter()
    ensures forall t :: t in DefaultAllowedTypes ==> FileFilter(t) == Accept
  {
    forall t | t in DefaultAllowedTypes ensures StartsWith(t, "image/") {
      assert t[..6] == "image/";
    }
  }

  /** The filter is wider than the service's default allow-list: an SVG image passes the
      middleware but is refused by `validateImage` under the defaults. */
  lemma SvgPassesOnlyTheFilter()
    ensures FileFilter("image/svg+xml") == Accept
    ensures "image/svg+xml" !in DefaultAllowedTypes
  {
    assert "image/svg+xml"[..6] == "image/";
    assert "image/svg+xml"[6] == 's';
    assert forall t :: t in DefaultAllowedTypes ==> |t| != 13 || t[6] != 's';
  }

  /** A key names its folder: the three folders differ within their first two characters. */
  lemma FolderFromKey(f1: string, r1: string, f2: string, r2: string)
    requires f1 in {RecetasFolder, UsuariosFolder, UploadsFolder}
    requires f2 in {RecetasFolder, UsuariosFolder, UploadsFolder}
    requires f1 + r1 == f2 + r2
    ensures f1 == f2 && r1 == r2
  {
    assert (f1 + r1)[0] == f1[0] && (f1 + r1)[1] == f1[1];
    assert (f2 + r2)[0] == f2[0] && (f2 + r2)[1] == f2[1];
    assert r1 == (f1 + r1)[|f1|..];
    assert r2 == (f2 + r2)[|f2|..];
  }

  /** The digit run of a string of digits followed by '-' ends at the '-'. */
  lemma {:induction false} DigitRunStopsAtDash(d: string, r: string)
    requires forall i :: 0 <= i < |d| ==> IsDigit(d[i])
    ensures DigitRun(d + "-" + r, 10) == |d|
    decreases |d|
  {
    if d != [] {
      assert (d + "-" + r)[1..] == d[1..] + "-" + r;
      DigitRunStopsAtDash(d[1..], r);
    } else {
      assert d + "-" + r == "-" + r;
    }
  }

  /** A run of digits followed by '-' is read back unambiguously. */
  lemma DigitsDashUnique(d1: string, r1: string, d2: string, r2: string)
    requires forall i :: 0 <= i < |d1| ==> IsDigit(d1[i])
    requires forall i :: 0 <= i < |d2| ==> IsDigit(d2[i])
    requires d1 + "-" + r1 == d2 + "-" + r2
    ensures d1 == d2 && r1 == r2
  {
    var s := d1 + "-" + r1;
    DigitRunStopsAtDash(d1, r1);
    DigitRunStopsAtDash(d2, r2);
    assert d1 == s[..|d1|] == d2;
    assert r1 == s[|d1| + 1..] == r2;
  }

  /** An identifier of known length is cut off its "." and extension unambiguously. */
  lemma IdentifierDotUnique(u1: string, e1: string, u2: string, e2: string)
    requires |u1| == |u2| && u1 + "." + e1 == u2 + "." + e2
    ensures u1 == u2 && e1 == e2
  {
    assert u1 == (u1 + "." + e1)[..|u1|];
    assert u2 == (u2 + "." + e2)[..|u2|];
    assert e1 == (u1 + "." + e1)[|u1| + 1..];
    assert e2 == (u2 + "." + e2)[|u2| + 1..];
  }

  /** Keys do not collide unless everything they are made of agrees: two keys with
      identifiers of one length (as `uuidv4()`'s always are) are equal only for the same
      folder, clock reading, identifier and extension. */
  lemma ObjectKeyInjective(p1: string, t1: nat, u1: string, n1: string,
                           p2: string, t2: nat, u2: string, n2: string)
    requires |u1| == |u2|
    requires ObjectKey(p1, t1, u1, n1) == ObjectKey(p2, t2, u2, n2)
    ensures KeyFolder(p1) == KeyFolder(p2) && t1 == t2 && u1 == u2
    ensures FileExtension(n1) == FileExtension(n2)
  {
    FolderFromKey(KeyFolder(p1), FileName(t1, u1, n1), KeyFolder(p2), FileName(t2, u2, n2));
    var e1, e2 := FileExtension(n1), FileExtension(n2);
    DigitsDashUnique(Decimal(t1), u1 + "." + e1, Decimal(t2), u2 + "." + e2);
    DecimalInjective(t1, t2);
    IdentifierDotUnique(u1, e1, u2, e2);
  }
}
