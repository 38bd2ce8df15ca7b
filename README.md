# QR link server: a Dafny model of its rendering arithmetic and request helpers

The system is a small link shortener. An admin registers target URLs. Each link gets a QR code
PNG served at `/qr/:id.png`. In "default" logo mode the code is drawn in colour: finder patterns
in blue and a left-to-right blue-to-red gradient elsewhere. In every mode a logo can be
composited over the centre on a rounded white plate.

This project models the core of that system in Dafny and proves properties of the model.

- **`src/qr.js`.**
  - The colour helpers: clamp01, hexToRgb, rgbToHex, lerp and lerpColorHex.
  - The finder-zone classifier isInFinder.
  - The module rasteriser of createColoredQrPng. It is an imperative method with the nested loop
    of the source, proved equal to a specification function.
  - The mode choice, the early return and the integer geometry of createQrPngWithLogo.
- **`server.js`.**
  - parseName.
  - The BASE_URL normalisation and resolveBaseUrl.
  - The requireAdmin decision.
  - The /admin pagination arithmetic.
  - The upload extension allowlist.
  - resolveLogoPath and the logo choice of `/qr/:id.png`.

Modules:

| file | module | contents |
|---|---|---|
| wrappers.dfy | Wrappers | `Option` |
| js_builtins.dfy | JsBuiltins | the JavaScript built-ins the core relies on: `trim`, `replace`, `parseInt` (radix 10 and 16), `toString(16)`, `padStart`, `toUpperCase`/`toLowerCase`, Node's `path.extname` |
| qr_colour.dfy | QrColour | clamp01, hexToRgb, rgbToHex, lerp, Math.round, lerpColorHex |
| qr_finder.dfy | QrFinder | isInFinder |
| qr_raster.dfy | QrRaster | createColoredQrPng: sizes, module colours, the SVG squares |
| qr_logo.dfy | QrLogo | createQrPngWithLogo: mode, early return, logo geometry |
| server_input.dfy | ServerInput | parseName, ENV_BASE_URL, resolveBaseUrl |
| server_admin.dfy | ServerAdmin | requireAdmin, /admin pagination |
| server_logo.dfy | ServerLogo | the upload allowlist, resolveLogoPath, the /qr/:id.png route |

Modelling conventions:

- The QR module matrix is an input `m: seq<seq<bool>>`, indexed `m[x][y]` like `qr.modules.get(x, y)`.
- File existence is a set of existing paths.
- `null`, `undefined` and non-string values are `None`.
- The SVG text is a `Scene` of `Rect` records.
- `Math.round` is round-half-up on exact reals: `floor(x + 1/2)`.
- `Math.floor` of a quotient by a positive constant is Dafny's `/`.
- `(n >> 16) & 255` is `(n / 65536) % 256`. With Euclidean division this is exact for every
  integer, negative ones included.

## Model

| member | source | states |
|---|---|---|
| QrColour.Clamp01 | src/qr.js:5-9 | the result is in [0, 1]; it is x on [0, 1], 0 below and 1 above |
| QrColour.DoubleEach | src/qr.js:13 | each character is written twice: the length doubles and character k is input character k/2 |
| QrColour.HexDigitsOf | src/qr.js:12-13 | the digit string hexToRgb hands to parseInt; HexDigitsOfColour, ShortHexDigits and HashThenDigits state what it is for "#RRGGBB", "#RGB" and padded input |
| QrColour.Channels | src/qr.js:14-15 | the masked channels of a parsed value are in 0..255, for NaN as well |
| QrColour.HexToRgb | src/qr.js:11-16 | every channel hexToRgb returns is in 0..255, whatever the input string |
| QrColour.Byte | src/qr.js:14-15 | two hex digits denote a channel in 0..255 |
| QrColour.To2 | src/qr.js:19 | `x.toString(16).padStart(2, "0")`; To2Digits states the two digits it writes for a channel |
| QrColour.RgbToHex | src/qr.js:18-21 | rgbToHex; RgbToHexShape, HexRoundTrip and HexCanonical state its shape and that it inverts hexToRgb |
| QrColour.To2Digits | src/qr.js:19 | for a channel in range, to2 writes the high and the low nibble as lower-case hex digits |
| QrColour.To2Upper | src/qr.js:19-20 | upper-casing the two digits of a channel gives its upper-case hex pair |
| QrColour.HexPairDigits | src/qr.js:19-20 | the pair of a channel consists of two upper-case digits that read back as its nibbles |
| QrColour.RgbToHexShape | src/qr.js:18-21 | for channels in 0..255, rgbToHex yields "#" and exactly six upper-case hex digits |
| QrColour.RgbToHexIsHexChars | src/qr.js:18-21 | rgbToHex writes "#" and the three channel pairs in order |
| QrColour.SixDigitsHorner | src/qr.js:14 | six digits are read most significant first |
| QrColour.SixDigitsValue | src/qr.js:14-15 | six hex digits denote `hi * 65536 + mid * 256 + lo` for their three pairs |
| QrColour.ParseSixDigits | src/qr.js:14 | parseInt(v, 16) of six hex digits reads all six |
| QrColour.ParseSixBytes | src/qr.js:14 | parseInt(v, 16) of six hex digits is the 24-bit value of their pairs |
| QrColour.ChannelsOfBytes | src/qr.js:15 | the shifts and masks take a 24-bit value apart into exactly its three bytes |
| QrColour.HexDigitsOfColour | src/qr.js:12-13 | for "#RRGGBB", hexToRgb hands parseInt exactly the six digits after the '#' |
| QrColour.HashThenDigits | src/qr.js:12 | removing the first '#' and trimming leaves the digits when they start and end with a digit |
| QrColour.HexColourChannels | src/qr.js:11-16 | hexToRgb of "#RRGGBB" is the three byte values of its digit pairs |
| QrColour.HexRoundTrip | src/qr.js:11-21 | hexToRgb(rgbToHex(c)) == c for channels in 0..255 |
| QrColour.HexCanonical | src/qr.js:11-21 | rgbToHex(hexToRgb(s)) is s upper-cased, for every "#RRGGBB" string in either case |
| QrColour.ByteOfPair | src/qr.js:11-21 | the two digits of a channel's pair denote the channel again |
| QrColour.PairOfByte | src/qr.js:11-21 | the pair written for the byte of two hex digits is those digits upper-cased |
| QrColour.ShortHexDoubles | src/qr.js:12-15 | "#RGB" reads as "#RRGGBB", so each channel is 17 times its digit |
| QrColour.ShortHexExpands | src/qr.js:12-15 | "#RGB" and "#RRGGBB" with each digit doubled give the same colour |
| QrColour.ShortHexDigits | src/qr.js:12-13 | for "#RGB" parseInt receives the doubled digits |
| QrColour.DoubledDigitsChannels | src/qr.js:12-15 | a doubled colour "#aabbcc" has channels 17a, 17b and 17c |
| QrColour.Lerp | src/qr.js:23-25 | lerp is a at t = 0 and b at t = 1, and lies between a and b for t in [0, 1] |
| QrColour.LerpBetween | src/qr.js:23-25 | `a + (b - a) * t` lies between a and b for t in [0, 1], in either order of the anchors |
| QrColour.LerpChannel | src/qr.js:31-33 | `Math.round(lerp(a, b, t))` for one channel; LerpChannelBetween and LerpChannelMonotone state its range, endpoints and direction |
| QrColour.LerpRgb | src/qr.js:30-34 | the three rounded channels; LerpRgbBetween keeps them in 0..255 |
| QrColour.LerpColorHex | src/qr.js:27-35 | lerpColorHex; the LerpColorHex lemmas below state its shape, endpoints, channels and monotonicity |
| QrColour.Round | src/qr.js:31-33 | Math.round(x) is the integer k with k - 1/2 <= x < k + 1/2 |
| QrColour.RoundMonotone | src/qr.js:31-33 | Math.round is monotone |
| QrColour.LerpChannelBetween | src/qr.js:31-33 | a rounded interpolated channel lies between its anchors and is the anchor at t = 0 and t = 1 |
| QrColour.LerpChannelMonotone | src/qr.js:31-33 | as t grows, a channel moves only toward its target anchor |
| QrColour.LerpRgbBetween | src/qr.js:30-34 | for t in [0, 1] the mixed channels stay in 0..255 |
| QrColour.LerpColorHexIsHexColour | src/qr.js:27-35 | for t in [0, 1] lerpColorHex yields "#" and six hex digits, all already upper case |
| QrColour.LerpColorHexEndpoints | src/qr.js:27-35 | lerpColorHex(from, to, 0) is from upper-cased and lerpColorHex(from, to, 1) is to upper-cased |
| QrColour.LerpColorHexAtZero | src/qr.js:27-35 | at t = 0 an upper-case first anchor comes back unchanged |
| QrColour.LerpColorHexAtOne | src/qr.js:27-35 | at t = 1 an upper-case second anchor comes back unchanged |
| QrColour.LerpColorHexChannels | src/qr.js:27-35 | the string written reads back as the rounded interpolated channels |
| QrColour.LerpColorHexMonotone | src/qr.js:27-35 | as t grows, each channel of the colour written moves only toward the channel of the second anchor |
| QrFinder.FinderIsThreeBlocks | src/qr.js:37-42 | isInFinder holds exactly on [0,6]x[0,6], [n-7,n-1]x[0,6] and [0,6]x[n-7,n-1] |
| QrFinder.BottomRightIsFree | src/qr.js:37-42 | for n >= 14 the bottom-right block [n-7,n-1]x[n-7,n-1] is outside the zone |
| QrFinder.FinderBlocksDisjoint | src/qr.js:37-42 | for n >= 14 the three blocks are pairwise disjoint |
| QrFinder.FinderTransposeSymmetric | src/qr.js:37-42 | the zone is symmetric under swapping x and y |
| QrFinder.FinderWithinGrid | src/qr.js:37-42 | for n >= 7 every finder module lies in the grid |
| QrFinder.SmallGridAllFinder | src/qr.js:37-42 | for n <= 7 every module of the grid is a finder module |
| QrFinder.NonFinderGridIsWide | src/qr.js:37-42 | a grid module outside the zone exists only when n >= 8, so `x / (n - 1)` never divides by zero |
| QrFinder.FinderFirstColumn | src/qr.js:37-42 | for n >= 14, column 0 is in the zone exactly for y <= 6 and y >= n - 7 |
| QrRaster.CeilDiv | src/qr.js:48 | Math.ceil(a / b) is the least q with a <= b * q |
| QrRaster.ModulePx | src/qr.js:48 | modulePx is at least 1 |
| QrRaster.CanvasPx | src/qr.js:49 | `(n + 4) * modulePx`; CanvasBounds relates it to the requested size |
| QrRaster.CanvasBounds | src/qr.js:45-49 | modulePx >= 1, size <= canvasPx, and canvasPx < size + n + 4 for size >= 1 |
| QrRaster.Gradient | src/qr.js:66 | `clamp01(x / (n - 1))` is in [0, 1], and is `x / (n - 1)` itself for a grid column |
| QrRaster.ModuleColour | src/qr.js:62-68 | BLUE in the finder zone, else lerpColorHex(BLUE, RED, t); ModuleColourOffFinder, ModuleColourIsHexColour and the gradient lemmas state its properties |
| QrRaster.ModuleRect | src/qr.js:70-72 | the square of one dark module; ModuleRectAt, ModuleRectPrecedes and ModuleRectInCanvas state where it lies |
| QrRaster.RowCells | src/qr.js:58-60 | the dark modules listed for a row are dark, in that row, and among the columns visited |
| QrRaster.GridCells | src/qr.js:57-60 | the dark modules listed for the rows visited are dark grid modules of those rows |
| QrRaster.Rects | src/qr.js:70-72 | one square per listed module, in the same order, at that module's position |
| QrRaster.ColoredScene | src/qr.js:44-76 | the white canvas and the squares of the dark modules; CreateColoredScene computes it, and the Scene lemmas state what it draws |
| QrRaster.CreateColoredScene | src/qr.js:44-76 | the nested loop (rows outer, columns inner, dark modules only) builds exactly ColoredScene(m, size) |
| QrRaster.RowCellsOrdered | src/qr.js:58 | within a row, modules are listed in increasing column order |
| QrRaster.GridCellsOrdered | src/qr.js:57-58 | the modules are listed in strict row-major order |
| QrRaster.RowCellListed | src/qr.js:58-60 | every dark module of a row is listed |
| QrRaster.GridCellListed | src/qr.js:57-60 | every dark module of the grid is listed |
| QrRaster.OffsetStep | src/qr.js:70-71 | a later module coordinate starts at least one module further along |
| QrRaster.OffsetInjective | src/qr.js:70-71 | different module coordinates have different pixel offsets |
| QrRaster.OffsetInCanvas | src/qr.js:70-71 | a grid coordinate lies between the quiet zones of the (n + 4)-module canvas |
| QrRaster.ModuleRectAt | src/qr.js:70-72 | the square of (x, y) is at ((x+2)*modulePx, (y+2)*modulePx) with side modulePx |
| QrRaster.ModuleRectPrecedes | src/qr.js:70-72 | modules in row-major order give squares in the same order that do not overlap |
| QrRaster.ModuleRectInjective | src/qr.js:70-72 | different modules never get the same square |
| QrRaster.ModuleRectInCanvas | src/qr.js:70-72 | every module square is inside the canvas and clear of the 2-module quiet zone |
| QrRaster.SceneDrawsExactlyDarkModules | src/qr.js:54-74 | a white canvas of canvasPx pixels; the square of (x, y) is drawn exactly when the module is dark |
| QrRaster.SceneRectsAreDarkModules | src/qr.js:57-74 | every square drawn is the square of a dark module |
| QrRaster.SceneRowMajor | src/qr.js:57-74 | squares come in strict row-major order, so each dark module is drawn once |
| QrRaster.SceneDisjoint | src/qr.js:57-74 | no two squares overlap |
| QrRaster.SceneInsideCanvas | src/qr.js:49-72 | every square is modulePx wide, inside the canvas and clear of the quiet zone |
| QrRaster.AnchorChannels | src/qr.js:51-52 | BLUE and RED are upper-case "#RRGGBB" colours with channels (4, 153, 233) and (244, 40, 40) |
| QrRaster.ModuleColourOffFinder | src/qr.js:62-68 | outside the finder zone n >= 8 and the colour is lerpColorHex(BLUE, RED, x/(n-1)) with x/(n-1) in [0, 1] |
| QrRaster.ModuleColourIsHexColour | src/qr.js:62-68 | every module colour is "#" and six hex digits, all already upper case |
| QrRaster.ColourDependsOnColumnOnly | src/qr.js:62-68 | two non-finder modules of the same column get the same colour |
| QrRaster.GradientStartsBlue | src/qr.js:51-67 | the gradient at t = 0 is exactly BLUE |
| QrRaster.GradientEndsRed | src/qr.js:51-67 | the gradient at t = 1 is exactly RED |
| QrRaster.GradientAtLastColumn | src/qr.js:66 | column n - 1 is at gradient position 1 |
| QrRaster.FirstColumnBlue | src/qr.js:62-68 | every module of column 0 is BLUE |
| QrRaster.LastColumnRed | src/qr.js:62-68 | a module of column n - 1 outside the finder zone is RED |
| QrRaster.GradientMonotone | src/qr.js:62-68 | further right, a non-finder module's red channel never falls and its green and blue channels never rise |
| QrRaster.SceneColoursAreHex | src/qr.js:62-72 | every square in the scene is filled with "#" and six upper-case hex digits |
| QrLogo.LogoMax | src/qr.js:106 | round(0.30 q) == (3q + 5) / 10 |
| QrLogo.PlateSize | src/qr.js:107 | round(1.35 l) == (27l + 10) / 20 |
| QrLogo.Radius | src/qr.js:108 | round(0.18 p) == (9p + 25) / 50 |
| QrLogo.LogoLayout | src/qr.js:106-132 | the layout of side q, with its three sizes in integer form |
| QrLogo.QrSide | src/qr.js:103 | `Math.min(width \|\| size, height \|\| size)` is one of the two sides and at most both |
| QrLogo.SizesOrdered | src/qr.js:106-108 | for qrSize >= 0: 0 <= logoMax <= plateSize <= qrSize and 0 <= 2 * radius <= plateSize |
| QrLogo.PlateInsideImage | src/qr.js:126-128 | the plate square lies inside [0, qrSize) in both directions |
| QrLogo.LogoInsidePlate | src/qr.js:126-132 | the logo square lies inside the plate square in both directions |
| QrLogo.LogoStrictlyInsidePlate | src/qr.js:106-132 | the plate leaves a margin on both sides of the logo exactly when qrSize >= 15 |
| QrLogo.LayoutCentred | src/qr.js:126-132 | plate and logo are centred to within one pixel |
| QrLogo.Layout1024 | src/qr.js:103-132 | for 1024: logoMax 307, plate 414, radius 75, centre 512, plate at 305, logo at 359; the logo lies strictly inside the plate, which lies inside the image |
| QrLogo.BaseImage | src/qr.js:85-96 | the coloured renderer is used exactly when logoMode is "default"; null, "custom" and every other value get the plain encoder |
| QrLogo.CreateQrPngWithLogo | src/qr.js:84-140 | the base PNG comes back unchanged exactly when there is no non-empty buffer and the path is empty or missing. Otherwise the logo comes from the buffer when there is one, else from the path, placed at the layout of min(width, height) |
| QrLogo.CompositeFitsImage | src/qr.js:101-140 | for a base image reported as side x side, the plate lies inside it and the logo inside the plate |
| ServerInput.ParseName | server.js:66-72 | null exactly for a missing or non-string value and for white-space-only strings. Otherwise a prefix of the trimmed input of length min(trimmed length, 80), so between 1 and 80 |
| ServerInput.CutName | server.js:69-71 | null for an empty trimmed string, else its first min(length, 80) characters |
| ServerInput.ParseNameIdempotent | server.js:66-72 | a name whose trimmed form is at most 80 characters is a fixed point of a second pass |
| ServerInput.ParseNameOfTrimmed | server.js:66-72 | a trimmed non-empty name of at most 80 characters is its own parse |
| ServerInput.ParseNameUncut | server.js:66-72 | a name whose trimmed form has 1 to 80 characters parses to exactly that trimmed form |
| ServerInput.CutNameReparsed | server.js:66-72 | an 80-character cut ending in white space is not its own parse |
| ServerInput.ParseNameOfLongTrimmed | server.js:70 | a trimmed name longer than 80 characters is cut to its first 80 |
| ServerInput.CutNameMayEndInSpace | server.js:68-70 | cutting happens after trimming, so a stored name can end in white space and a second pass changes it |
| ServerInput.StripSlashes | server.js:37 | `replace(/\/+$/, "")` keeps a prefix, removes only '/' characters, and leaves no trailing '/' |
| ServerInput.StripSlashesIdempotent | server.js:37 | stripping twice is stripping once |
| ServerInput.StripSlashesKeeps | server.js:37 | a string not ending in '/' is left alone |
| ServerInput.EnvBaseUrl | server.js:17 | ENV_BASE_URL is the trimmed BASE_URL with exactly its trailing run of '/' removed: a prefix, the rest all '/', and no '/' at its end |
| ServerInput.Proto | server.js:35 | a non-empty x-forwarded-proto wins, else a non-empty req.protocol, else "http"; so the protocol is never empty |
| ServerInput.HostText | server.js:36-37 | the Host header as it prints in the template, "undefined" when missing; EmptyHostLosesSlashes and OriginWithoutHost state its effect |
| ServerInput.RequestOrigin | server.js:35-37 | `${proto}://${host}` before stripping; BaseUrlFromRequest states what resolveBaseUrl makes of it |
| ServerInput.ResolveBaseUrl | server.js:33-38 | a non-empty ENV_BASE_URL wins. Otherwise the result is `proto://host` without its trailing slashes. It never ends in '/' |
| ServerInput.BaseUrlNormalised | server.js:33-38 | normalising the base URL again changes nothing |
| ServerInput.BaseUrlFromRequest | server.js:35-37 | without BASE_URL and with a host not ending in '/', the base URL is exactly `proto://host` |
| ServerInput.EmptyHostLosesSlashes | server.js:35-37 | with an empty Host header the base URL is `proto:`, both slashes stripped |
| ServerAdmin.ChosenToken | server.js:50 | the query token when non-empty, a structured query value as it is, else the header token |
| ServerAdmin.RequireAdmin | server.js:48-53 | every request is admitted when ADMIN_TOKEN is empty; otherwise exactly those whose chosen token equals it |
| ServerAdmin.OpenWithoutToken | server.js:48-49 | with ADMIN_TOKEN empty every request is admitted, whatever its tokens |
| ServerAdmin.AdmittedIff | server.js:48-53 | with a token configured, a request is admitted exactly when the query token is the token, or it has no or an empty query token and the header is the token |
| ServerAdmin.NoTokenRefused | server.js:50-51 | a request with no token, or only empty ones, is refused once a token is configured |
| ServerAdmin.AdminPage | server.js:80 | the page is NaN exactly when parseInt fails; otherwise it is at least 1, and it is the parsed number when that exceeds 1 |
| ServerAdmin.DefaultPageIsFirst | server.js:80 | a missing or empty page parameter means page 1 |
| ServerAdmin.Offset | server.js:82 | the offset is non-negative, a multiple of 10, and skips page - 1 full pages |
| ServerAdmin.TotalPages | server.js:85 | totalPages is 0 exactly for no links, and otherwise the least page count whose pages hold every link |
| ServerAdmin.RowOnOnePage | server.js:80-89 | every row of the list is on exactly one page, which is among the totalPages |
| ServerAdmin.PastLastPageEmpty | server.js:82-89 | a page past the last one shows no row |
| ServerLogo.UploadExtension | server.js:189 | the lower-cased extension is empty or starts with '.', with the length of path.extname |
| ServerLogo.CheckUpload | server.js:189-194 | an upload is accepted exactly when its lower-cased extension is one of .png, .jpg, .jpeg, .webp, and then carries that extension |
| ServerLogo.AllowedNameAccepted | server.js:189-194 | every name stem + ext with a stem free of '/' and ext an allowed extension is accepted, carrying exactly ext |
| ServerLogo.AllowedExtensionShape | server.js:189 | each allowed extension is a dot and lower-case characters other than '.' and '/' |
| ServerLogo.ExtensionEndsName | server.js:189 | the checked extension is the lower-cased tail of the name without trailing slashes |
| ServerLogo.UpperCaseNameAccepted | server.js:189-191 | "photo.PNG" is accepted as ".png" |
| ServerLogo.DotNameRejected | server.js:189-193 | ".png" alone has no extension and is refused |
| ServerLogo.NoNameRejected | server.js:189-193 | a file without an original name is refused |
| ServerLogo.AdminLogoUpload | server.js:184-196 | 400 exactly without a file or with a refused type; otherwise the file is stored as "logo" plus the upload's own lower-cased extension, which is an allowed one |
| ServerLogo.CreateLogoChoice | server.js:114-136 | the mode defaults to "default". A refused custom upload is a 400. A custom path is recorded exactly for custom mode with a file, and is `customDir/fileId` plus the upload's own lower-cased extension, an allowed one |
| ServerLogo.ResolveLogoPath | server.js:40-46 | the default logo if it exists; else the configured path if non-empty and existing; else "" with source none. A path returned exists |
| ServerLogo.QrLogoPath | server.js:216-222 | "default" mode uses resolveLogoPath with "" as null. "custom" uses logo_path_custom exactly when it is set and exists. Any other mode uses none. A chosen path exists |
| ServerLogo.DefaultModeOrder | server.js:40-46 | in "default" mode the bundled logo wins, then the uploaded one, then none |
| ServerLogo.QrRoute | server.js:210-230 | 404 exactly for an unknown id. Otherwise the output of createQrPngWithLogo for the row's URL, the chosen logo path, size 1024 and the row's mode |
| ServerLogo.QrRouteUsesChosenLogo | server.js:216-230 | a logo is composited exactly when the route chose a path, and it is read from that path; the code is coloured exactly in "default" mode |
| ServerLogo.QrRouteLayout1024 | server.js:224-230 | with a 1024 x 1024 base image the logo lands at the 1024 layout |
| JsBuiltins.TrimStart | server.js:68 | the removed prefix is all white space and the result does not start with white space |
| JsBuiltins.TrimEnd | server.js:68 | the removed suffix is all white space and the result does not end with white space |
| JsBuiltins.Trim | server.js:68 | the result has no surrounding white space and is the input with a white-space prefix and suffix cut off |
| JsBuiltins.TrimEmptyIff | server.js:68-69 | trim gives "" exactly for white-space-only input |
| JsBuiltins.TrimIdempotent | server.js:68 | trimming twice is trimming once |
| JsBuiltins.TrimOfTrimmed | server.js:68 | a string without surrounding white space is its own trim |
| JsBuiltins.RemoveFirst | src/qr.js:12 | `replace("#", "")` removes only the first '#' |
| JsBuiltins.StripTrailing | server.js:37 | removes the whole trailing run of one character and nothing else |
| JsBuiltins.StripTrailingIdempotent | server.js:37 | stripping twice is stripping once |
| JsBuiltins.DigitPrefix | src/qr.js:14 | parseInt reads the longest run of digits of the radix |
| JsBuiltins.ParseOneDigit | server.js:80 | parseInt of one decimal digit is that digit |
| JsBuiltins.ParseInt | src/qr.js:14 | parseInt for radix 10 and 16: leading white space, one sign, "0x" for 16, then the longest digit run; NaN when there is none. ParseOneDigit, ParseSixDigits and ParseSixBytes state what it reads |
| JsBuiltins.LowerHexCharValue | src/qr.js:19 | the digit toString(16) writes reads back as its value |
| JsBuiltins.PadStart | src/qr.js:19 | padStart keeps the string as a suffix and fills in front to the requested length |
| JsBuiltins.UpperAscii | src/qr.js:20 | toUpperCase maps each character and keeps the length |
| JsBuiltins.LowerAscii | server.js:189 | toLowerCase maps each character and keeps the length |
| JsBuiltins.Extname | server.js:189 | path.extname is empty or a '.' followed by no further '.' or '/' |
| JsBuiltins.ExtnameOfStemExt | server.js:189 | a name made of a non-empty stem without '/' and an extension `.x...` with no further '.' or '/' has exactly that extension |
| JsBuiltins.ExtnameIsSuffix | server.js:189 | the extension is a suffix of the path without its trailing slashes |

Members without a row are proof helpers for the rows above. Among them: QrColour.UpperHexCharValue,
HexDigitIsPlain, DigitsValueSnoc, HornerBytes, HexCharsAt, DoubleThree and SameDigitsSameRgb; QrRaster.RowStart,
LightStep, DarkStep, RowEnd and RectsSnoc (the loop invariant steps of CreateColoredScene);
QrLogo.RoundIs and SizesOrderedClosed; ServerInput.TrimLengthAtMost, OriginWithoutHost and
StripOneSlash; JsBuiltins.TrimSplit, TrimStartStep, TrimEndStep, LastDotIs and NoDotAfter.

## Left out

- QR symbol encoding is left out. QRCode.create and QRCode.toBuffer (src/qr.js:46, src/qr.js:89-95)
  are a foreign library. The module matrix is an input, and the plain-mode PNG is opaque (`PlainPng`).
- The sharp image library is left out: SVG rasterisation, resizing, PNG encoding, `metadata()`,
  `fit: "contain"` and `composite` (src/qr.js:77-81, src/qr.js:101-140). The model keeps the
  geometry handed to them. The metadata width and height are inputs, with 0 for missing.
- The SVG markup text (src/qr.js:54-55, src/qr.js:72, src/qr.js:76) is left out. It is modelled as a
  `Scene` of `Rect` records with the same numbers and colours.
- The rounded-plate SVG of src/qr.js:120-124 is left out. Its size and radius are in `Layout`.
- QrColour.Round: models exact-rational round-half-up, not IEEE doubles. At an exact tie, a float
  product that lands just below or above .5 could round the other way; the model does not capture this.
- QrColour.Lerp: models real arithmetic, not floating point. The same tie caveat applies to the
  colour channels.
- Non-string inputs to hexToRgb, and anomalous doubles such as huge values, are left out.
  `String(hex || "")` is modelled for strings only.
- JsBuiltins.ParseInt: decimal and hex values beyond 2^53 lose precision in JavaScript but stay exact
  here. ToInt32 of the shift is exact in the model for every integer.
- JsBuiltins.UpperAscii and JsBuiltins.LowerAscii: only ASCII letters change case. JavaScript also
  maps non-ASCII letters. This matters only for non-ASCII extensions, which the allowlist refuses
  either way.
- String lengths count Dafny characters. JavaScript counts UTF-16 code units, so for characters
  outside the Basic Multilingual Plane the 80-character cut of parseName can differ, and so can
  the `h.length === 3` test and the `split("")` of hexToRgb (src/qr.js:12-13).
- The n = 1 grid is not excluded. Every module of a grid with n <= 7 lies in the finder zone
  (QrFinder.SmallGridAllFinder), so the `0/0` gradient is never evaluated and no `n >= 2`
  precondition is needed.
- ServerAdmin.AdminPage: a non-numeric page gives NaN in JavaScript, modelled as `None`. The offset
  and page lemmas are stated for numeric pages only. An array-valued `page` query parameter is not
  modelled.
- A logo that sharp cannot decode is left out. It rejects the promise, and the route answers HTTP
  500 (server.js:237-238). There is no fallback to "no logo".
- `logoBuffer` values that are not Buffers are left out. The model takes a byte sequence or none.
- Express routing, multer uploads and limits, and the file operations (rename, copy, unlink,
  mkdir) are left out. So are the database queries and their result rows, redirects, response
  headers and the download disposition. nanoid is an input (`fileId`). The zod URL validation is a
  library, and the target URL is taken as given.
- `path.join` normalisation is not modelled. Joined paths are modelled as `dir + "/" + name`.
- The /r/:id, update and delete routes are left out, as are the server start-up and port handling.
- src/store.js and src/db.js are not part of this model. Their `max(1, ceil(count / perPage))`
  page count differs from the one in server.js:85 modelled here, which is 0 for an empty list.
- public/admin.js and public/loading.js are not part of this model.
- Concurrency and async sequencing are left out. Each call is a sequential function.
