/**
 * How the link server picks the logo of a QR code: the image-type allowlist of both upload
 * routes, the custom-logo decision of the create route, resolveLogoPath, and the choice the
 * /qr/:id.png route makes before it calls createQrPngWithLogo. File existence is a set of the
 * paths that exist.
 */
module ServerLogo {
  import opened Wrappers
  import opened JsBuiltins
  import opened QrRaster
  import opened QrLogo

  /** The extensions both upload routes accept. */
  const AllowedExtensions: set<string> := {".png", ".jpg", ".jpeg", ".webp"}

  /** Side of the PNG the /qr route asks for. */
  const RouteSize := 1024

  // ---------------------------------------------------------------------------
  // Upload allowlist
  // ---------------------------------------------------------------------------

  /** `req.file.originalname || ""`. */
  function NameOrEmpty(originalName: Option<string>): string {
    if originalName.Some? then originalName.value else ""
  }

  /** `path.extname(req.file.originalname || "").toLowerCase()`. */
  function UploadExtension(originalName: Option<string>): (e: string)
    ensures e == [] || e[0] == '.'
    ensures |e| == |Extname(NameOrEmpty(originalName))|
  {
    LowerAscii(Extname(NameOrEmpty(originalName)))
  }

  /** The outcome of the type check: the accepted extension, or 400 "Supported: PNG/JPG/WEBP". */
  datatype UploadCheck = Accepted(ext: string) | Rejected400

  function CheckUpload(originalName: Option<string>): (r: UploadCheck)
    ensures r.Accepted? <==> UploadExtension(originalName) in AllowedExtensions
    ensures r.Accepted? ==> r.ext == UploadExtension(originalName)
  {
    var ext := UploadExtension(originalName);
    if ext in AllowedExtensions then Accepted(ext) else Rejected400
  }

  /** Each allowed extension is a dot, then one or more lower-case characters that are neither '.' nor '/'. */
  lemma AllowedExtensionShape(ext: string)
    requires ext in AllowedExtensions
    ensures |ext| >= 2 && ext[0] == '.' && '.' !in ext[1..] && '/' !in ext[1..]
    ensures LowerAscii(ext) == ext
  {
    if ext == ".png" {
      assert ext[1..] == "png";
    } else if ext == ".jpg" {
      assert ext[1..] == "jpg";
    } else if ext == ".jpeg" {
      assert ext[1..] == "jpeg";
    } else {
      assert ext[1..] == "webp";
    }
  }

  /**
   * Every name of the form stem + ext, with a stem free of '/' and an allowed extension, passes
   * the check with exactly that extension.
   */
  lemma AllowedNameAccepted(stem: string, ext: string)
    requires stem != [] && '/' !in stem && ext in AllowedExtensions
    ensures CheckUpload(Some(stem + ext)) == Accepted(ext)
  {
    AllowedExtensionShape(ext);
    ExtnameOfStemExt(stem, ext);
  }

  /**
   * The extension the check looks at is how the name ends, up to case and trailing slashes, so
   * an accepted file keeps the type its name announces.
   */
  lemma ExtensionEndsName(name: string)
    ensures var s := StripTrailing(name, '/'); var ext := UploadExtension(Some(name));
      |ext| <= |s| && LowerAscii(s[|s| - |ext|..]) == ext
  {
    ExtnameIsSuffix(name);
    LowerOfSuffix(StripTrailing(name, '/'), Extname(name), UploadExtension(Some(name)));
  }

  lemma LowerOfSuffix(s: string, e: string, lower: string)
    requires IsSuffix(e, s) && lower == LowerAscii(e)
    ensures |lower| <= |s| && LowerAscii(s[|s| - |lower|..]) == lower
  {
  }

  /** The check ignores case: "photo.PNG" is accepted as ".png". */
  lemma UpperCaseNameAccepted()
    ensures CheckUpload(Some("photo.PNG")) == Accepted(".png")
  {
    ExtnameOfPhoto("photo.PNG");
    LowerPng(".PNG");
  }

  lemma ExtnameOfPhoto(name: string)
    requires name == "photo.PNG"
    ensures Extname(name) == ".PNG"
  {
    assert StripTrailing(name, '/') == name;
    assert LastComponent(name) == name;
    assert LastDot(name) == Some(5);
  }

  lemma LowerPng(ext: string)
    requires ext == ".PNG"
    ensures LowerAscii(ext) == ".png"
  {
    var l := LowerAscii(ext);
    assert l[0] == '.' && l[1] == 'p' && l[2] == 'n' && l[3] == 'g';
  }

  /** A name that is only an extension, such as ".png", has none, and is refused. */
  lemma DotNameRejected()
    ensures CheckUpload(Some(".png")) == Rejected400
  {
    ExtnameOfDotName(".png");
    EmptyNotAllowed(UploadExtension(Some(".png")));
  }

  lemma ExtnameOfDotName(name: string)
    requires name == ".png"
    ensures Extname(name) == ""
  {
    assert StripTrailing(name, '/') == name;
    assert LastComponent(name) == name;
    assert LastDot(name) == Some(0);
  }

  lemma EmptyNotAllowed(ext: string)
    requires ext == ""
    ensures ext !in AllowedExtensions
  {
  }

  /** Without an original name the extension is empty, and the upload is refused. */
  lemma NoNameRejected()
    ensures CheckUpload(None) == Rejected400
  {
    EmptyNotAllowed(UploadExtension(None));
  }

  // ---------------------------------------------------------------------------
  // Upload routes
  // ---------------------------------------------------------------------------

  /** An uploaded file as multer describes it: only its original name matters here. */
  datatype Upload = Upload(originalName: Option<string>)

  /** POST /admin/logo: 400 without a file or with a refused type, else the file is stored as logo<ext> in the data directory. */
  datatype LogoUploadResult = NoFile400 | WrongType400 | StoreLogo(fileName: string)

  function AdminLogoUpload(file: Option<Upload>): (r: LogoUploadResult)
    ensures r == NoFile400 <==> file.None?
    ensures r == WrongType400 <==> file.Some? && !CheckUpload(file.value.originalName).Accepted?
    ensures r.StoreLogo? ==>
      file.Some? && UploadExtension(file.value.originalName) in AllowedExtensions
      && r.fileName == "logo" + UploadExtension(file.value.originalName)
  {
    if file.None? then NoFile400
    else match CheckUpload(file.value.originalName)
      case Rejected400 => WrongType400
      case Accepted(ext) => StoreLogo("logo" + ext)
  }

  /** What POST /admin/create records about the logo: 400 for a refused custom upload, else the mode and the custom path. */
  datatype CreateLogo = CustomRejected400 | Record(logoMode: string, customPath: Option<string>)

  /**
   * The logo part of POST /admin/create. `modeField` is `req.body.logo_mode`, `customDir` the
   * custom-logo directory and `fileId` the random name the route draws for the stored file.
   */
  function CreateLogoChoice(modeField: Option<string>, file: Option<Upload>, customDir: string, fileId: string): (r: CreateLogo)
    ensures r.CustomRejected400? <==>
      modeField == Some("custom") && file.Some? && !CheckUpload(file.value.originalName).Accepted?
    ensures r.Record? ==> r.logoMode == (if modeField.Some? && modeField.value != "" then modeField.value else "default")
    ensures r.Record? && r.customPath.Some? ==>
      r.logoMode == "custom" && file.Some? && UploadExtension(file.value.originalName) in AllowedExtensions
      && r.customPath.value == customDir + "/" + fileId + UploadExtension(file.value.originalName)
    ensures r.Record? && r.logoMode == "custom" && file.Some? ==> r.customPath.Some?
  {
    var logoMode := if modeField.Some? && modeField.value != "" then modeField.value else "default";
    if logoMode == "custom" && file.Some? then
      match CheckUpload(file.value.originalName)
      case Rejected400 => CustomRejected400
      case Accepted(ext) => Record(logoMode, Some(customDir + "/" + fileId + ext))
    else Record(logoMode, None)
  }

  // ---------------------------------------------------------------------------
  // resolveLogoPath and the /qr/:id.png route
  // ---------------------------------------------------------------------------

  datatype LogoOrigin = DefaultLogo | UploadedLogo | NoLogo

  /** The `{ path, source }` record resolveLogoPath returns. */
  datatype LogoChoice = LogoChoice(path: string, source: LogoOrigin)

  /**
   * resolveLogoPath. `defaultLogo` is DEFAULT_LOGO_PATH; `configured` is the logo_path setting
   * (None when there is no row or no value).
   */
  function ResolveLogoPath(files: set<string>, defaultLogo: string, configured: Option<string>): (c: LogoChoice)
    ensures c.source == DefaultLogo <==> defaultLogo in files
    ensures c.source == UploadedLogo <==>
      defaultLogo !in files && configured.Some? && configured.value != "" && configured.value in files
    ensures c.source == DefaultLogo ==> c.path == defaultLogo
    ensures c.source == UploadedLogo ==> c.path == configured.value
    ensures c.source == NoLogo ==> c.path == ""
    ensures c.source != NoLogo ==> c.path in files
  {
    if defaultLogo in files then LogoChoice(defaultLogo, DefaultLogo)
    else
      var value := if configured.Some? then configured.value else "";
      if value != "" && value in files then LogoChoice(value, UploadedLogo)
      else LogoChoice("", NoLogo)
  }

  /**
   * The logoPath the /qr/:id.png route hands to createQrPngWithLogo, from the link's logo_mode
   * and logo_path_custom columns. None is null.
   */
  function QrLogoPath(logoMode: Option<string>, customPath: Option<string>, files: set<string>, defaultLogo: string, configured: Option<string>): (p: Option<string>)
    ensures p.Some? ==> p.value != "" && p.value in files
    ensures logoMode == Some("default") ==>
      var c := ResolveLogoPath(files, defaultLogo, configured);
      p == if c.path == "" then None else Some(c.path)
    ensures logoMode == Some("custom") ==>
      (p.Some? <==> customPath.Some? && customPath.value != "" && customPath.value in files)
      && (p.Some? ==> p == customPath)
    ensures logoMode != Some("default") && logoMode != Some("custom") ==> p.None?
  {
    if logoMode == Some("default") then
      var logo := ResolveLogoPath(files, defaultLogo, configured);
      if logo.path == "" then None else Some(logo.path)
    else if logoMode == Some("custom") && customPath.Some? && customPath.value != "" && customPath.value in files then
      customPath
    else None
  }

  /** In "default" mode the bundled logo wins; failing it, the uploaded one; failing both, none. */
  lemma DefaultModeOrder(customPath: Option<string>, files: set<string>, defaultLogo: string, configured: Option<string>)
    requires defaultLogo != ""
    ensures defaultLogo in files ==> QrLogoPath(Some("default"), customPath, files, defaultLogo, configured) == Some(defaultLogo)
    ensures defaultLogo !in files && configured.Some? && configured.value != "" && configured.value in files ==>
      QrLogoPath(Some("default"), customPath, files, defaultLogo, configured) == configured
    ensures defaultLogo !in files && !(configured.Some? && configured.value != "" && configured.value in files) ==>
      QrLogoPath(Some("default"), customPath, files, defaultLogo, configured) == None
  {
  }

  /** A row of the links table, as far as the /qr route reads it. */
  datatype LinkRow = LinkRow(id: string, targetUrl: string, logoMode: Option<string>, logoPathCustom: Option<string>)

  /** The answer of GET /qr/:id.png: 404 for an unknown id, else the PNG createQrPngWithLogo returns. */
  datatype QrResponse = NotFound404 | Png(output: Output)

  /**
   * GET /qr/:id.png. `m` is the module matrix the encoder builds for the row's target URL;
   * `width` and `height` are what the image library reports for the base PNG.
   */
  function QrRoute(row: Option<LinkRow>, m: seq<seq<bool>>, files: set<string>, defaultLogo: string, configured: Option<string>, width: nat, height: nat): (r: QrResponse)
    requires IsSquare(m)
    ensures r.NotFound404? <==> row.None?
    ensures r.Png? ==>
      var logoPath := QrLogoPath(row.value.logoMode, row.value.logoPathCustom, files, defaultLogo, configured);
      r.output == CreateQrPngWithLogo(row.value.targetUrl, m, logoPath, None, RouteSize, row.value.logoMode, files, width, height)
  {
    if row.None? then NotFound404
    else
      var logoPath := QrLogoPath(row.value.logoMode, row.value.logoPathCustom, files, defaultLogo, configured);
      Png(CreateQrPngWithLogo(row.value.targetUrl, m, logoPath, None, RouteSize, row.value.logoMode, files, width, height))
  }

  /**
   * The route composites a logo exactly when it chose one, reads it from the chosen path, and
   * draws the coloured code exactly in "default" mode.
   */
  lemma QrRouteUsesChosenLogo(row: LinkRow, m: seq<seq<bool>>, files: set<string>, defaultLogo: string, configured: Option<string>, width: nat, height: nat)
    requires IsSquare(m)
    ensures var logoPath := QrLogoPath(row.logoMode, row.logoPathCustom, files, defaultLogo, configured);
      var out := QrRoute(Some(row), m, files, defaultLogo, configured, width, height).output;
      (out.Composited? <==> logoPath.Some?)
      && (out.Composited? ==> out.logo == FromPath(logoPath.value))
      && (out.Composited? ==> (out.base.ColouredPng? <==> row.logoMode == Some("default")))
      && (out.Unchanged? ==> (out.png.ColouredPng? <==> row.logoMode == Some("default")))
  {
  }

  /** When the base PNG is the 1024 x 1024 image asked for, the logo lands at the 1024 layout. */
  lemma QrRouteLayout1024(row: LinkRow, m: seq<seq<bool>>, files: set<string>, defaultLogo: string, configured: Option<string>)
    requires IsSquare(m)
    requires QrRoute(Some(row), m, files, defaultLogo, configured, 1024, 1024).output.Composited?
    ensures QrRoute(Some(row), m, files, defaultLogo, configured, 1024, 1024).output.layout
      == Layout(1024, 307, 414, 75, 512, 305, 305, 359, 359)
  {
    Layout1024();
  }
}
