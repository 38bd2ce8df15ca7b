/**
 * createQrPngWithLogo up to the calls into the image library: the choice between the coloured
 * renderer and the plain encoder, the early return when there is no usable logo, and the integer
 * geometry of the white plate and of the logo composited over the centre of the code.
 * Math.round is round-half-up on exact rationals; the PNG the encoder produces is opaque.
 */
module QrLogo {
  import opened Wrappers
  import opened QrColour
  import opened QrRaster

  /** Part of the QR side the logo may take, plate side over logo side, corner radius over plate side. */
  const LogoShare: real := 0.30
  const PlateScale: real := 1.35
  const CornerShare: real := 0.18

  /** The geometry handed to the compositor: sizes, the centre, and the top-left corners of plate and logo. */
  datatype Layout = Layout(
    qrSize: int, logoMax: int, plateSize: int, radius: int,
    center: int, plateLeft: int, plateTop: int, logoLeft: int, logoTop: int)

  /** `Math.round(qrSize * 0.30)`, which in integers is floor((3 q + 5) / 10). */
  function LogoMax(qrSize: int): (l: int)
    ensures l == (3 * qrSize + 5) / 10
  {
    var k := (3 * qrSize + 5) / 10;
    assert 10 * k <= 3 * qrSize + 5 < 10 * k + 10;
    assert (10 * k) as real <= (3 * qrSize + 5) as real < (10 * k + 10) as real;
    RoundIs(qrSize as real * LogoShare, k);
    Round(qrSize as real * LogoShare)
  }

  /** `Math.round(logoMax * 1.35)`, which in integers is floor((27 l + 10) / 20). */
  function PlateSize(logoMax: int): (p: int)
    ensures p == (27 * logoMax + 10) / 20
  {
    var k := (27 * logoMax + 10) / 20;
    assert 20 * k <= 27 * logoMax + 10 < 20 * k + 20;
    assert (20 * k) as real <= (27 * logoMax + 10) as real < (20 * k + 20) as real;
    RoundIs(logoMax as real * PlateScale, k);
    Round(logoMax as real * PlateScale)
  }

  /** `Math.round(plateSize * 0.18)`, which in integers is floor((9 p + 25) / 50). */
  function Radius(plateSize: int): (r: int)
    ensures r == (9 * plateSize + 25) / 50
  {
    var k := (9 * plateSize + 25) / 50;
    assert 50 * k <= 9 * plateSize + 25 < 50 * k + 50;
    assert (50 * k) as real <= (9 * plateSize + 25) as real < (50 * k + 50) as real;
    RoundIs(plateSize as real * CornerShare, k);
    Round(plateSize as real * CornerShare)
  }

  /**
   * The layout for a QR image of side qrSize, with its three sizes in integer form;
   * `/` on a positive divisor floors like Math.floor.
   */
  function LogoLayout(qrSize: int): (g: Layout)
    ensures g.qrSize == qrSize && g.logoMax == (3 * qrSize + 5) / 10
    ensures g.plateSize == (27 * g.logoMax + 10) / 20 && g.radius == (9 * g.plateSize + 25) / 50
  {
    var logoMax := LogoMax(qrSize);
    var plateSize := PlateSize(logoMax);
    var radius := Radius(plateSize);
    var center := qrSize / 2;
    var plateLeft := center - plateSize / 2;
    var logoLeft := center - logoMax / 2;
    Layout(qrSize, logoMax, plateSize, radius, center, plateLeft, plateLeft, logoLeft, logoLeft)
  }

  /** `Math.min(width || size, height || size)`: a side the metadata leaves out (or reports as 0) falls back to size. */
  function QrSide(width: nat, height: nat, size: int): (q: int)
    ensures q == (if width == 0 then size else width) || q == (if height == 0 then size else height)
    ensures q <= (if width == 0 then size else width) && q <= (if height == 0 then size else height)
  {
    var w := if width == 0 then size else width;
    var h := if height == 0 then size else height;
    if w <= h then w else h
  }

  // ---------------------------------------------------------------------------
  // The rounding in integer form
  // ---------------------------------------------------------------------------

  /** Math.round(x) is the one integer k with k - 1/2 <= x < k + 1/2. */
  lemma RoundIs(x: real, k: int)
    requires k as real - 0.5 <= x < k as real + 0.5
    ensures Round(x) == k
  {
  }

  // ---------------------------------------------------------------------------
  // Geometry
  // ---------------------------------------------------------------------------

  /**
   * For a non-negative QR side the sizes are ordered: the logo side is not negative, the plate
   * is at least as large as the logo and no larger than the image, and the corner radius is at
   * most half the plate.
   */
  lemma SizesOrdered(q: int)
    requires q >= 0
    ensures var g := LogoLayout(q);
      0 <= g.logoMax <= g.plateSize <= q && 0 <= 2 * g.radius <= g.plateSize
  {
    var g := LogoLayout(q);
    SizesOrderedClosed(q, g.logoMax, g.plateSize, g.radius);
  }

  /** SizesOrdered on the closed forms, in linear steps. */
  lemma SizesOrderedClosed(q: int, l: int, p: int, r: int)
    requires q >= 0 && l == (3 * q + 5) / 10 && p == (27 * l + 10) / 20 && r == (9 * p + 25) / 50
    ensures 0 <= l <= p <= q && 0 <= 2 * r <= p
  {
    assert 10 * l <= 3 * q + 5 < 10 * l + 10;
    assert 20 * p <= 27 * l + 10 < 20 * p + 20;
    assert 50 * r <= 9 * p + 25 < 50 * r + 50;
    if q <= 1 {
      assert l == 0 && p == 0 && r == 0;
    } else {
      assert 0 <= l && 10 * l <= 3 * q + 5;
      assert 200 * p <= 270 * l + 100 <= 81 * q + 235;
      if p <= 1 {
        assert r == 0;
      } else {
        assert 100 * r <= 18 * p + 50 <= 50 * p;
      }
    }
  }

  /** The plate square lies inside the QR image [0, q) x [0, q). */
  lemma PlateInsideImage(q: int)
    requires q >= 0
    ensures var g := LogoLayout(q);
      0 <= g.plateLeft && g.plateLeft + g.plateSize <= q && 0 <= g.plateTop && g.plateTop + g.plateSize <= q
  {
    SizesOrdered(q);
  }

  /** The logo square lies inside the plate square. */
  lemma LogoInsidePlate(q: int)
    requires q >= 0
    ensures var g := LogoLayout(q);
      g.plateLeft <= g.logoLeft && g.logoLeft + g.logoMax <= g.plateLeft + g.plateSize
    ensures var g := LogoLayout(q);
      g.plateTop <= g.logoTop && g.logoTop + g.logoMax <= g.plateTop + g.plateSize
  {
    SizesOrdered(q);
  }

  /** The plate shows a white margin on every side of the logo exactly when the image is at least 15 pixels wide. */
  lemma LogoStrictlyInsidePlate(q: int)
    requires q >= 0
    ensures var g := LogoLayout(q);
      (g.plateLeft < g.logoLeft && g.logoLeft + g.logoMax < g.plateLeft + g.plateSize) <==> q >= 15
  {
    var g := LogoLayout(q);
    if q >= 15 {
      assert g.logoMax >= 5;
      assert g.plateSize >= g.logoMax + 2;
    } else {
      assert g.logoMax <= 4;
      assert g.plateSize <= g.logoMax + 1;
    }
  }

  /** Plate and logo are centred: twice the left margin plus the side is q, up to one pixel either way. */
  lemma LayoutCentred(q: int)
    ensures var g := LogoLayout(q);
      q - 1 <= 2 * g.plateLeft + g.plateSize <= q + 1 && q - 1 <= 2 * g.logoLeft + g.logoMax <= q + 1
  {
  }

  /** The layout for the 1024-pixel images the /qr route asks for. */
  lemma Layout1024()
    ensures LogoLayout(1024) == Layout(1024, 307, 414, 75, 512, 305, 305, 359, 359)
    ensures var g := LogoLayout(1024);
      0 <= g.plateLeft < g.logoLeft && g.logoLeft + g.logoMax < g.plateLeft + g.plateSize <= 1024
  {
  }

  // ---------------------------------------------------------------------------
  // Mode selection and the early return
  // ---------------------------------------------------------------------------

  /** The PNG the QR step produces: the coloured scene rasterised at size x size, or the encoder's plain black-on-white image. */
  datatype BasePng = ColouredPng(scene: Scene, side: int) | PlainPng(text: string, width: int)

  /** Where the logo is read from. */
  datatype LogoSource = FromBuffer(bytes: seq<bv8>) | FromPath(path: string)

  /** The returned PNG: the base image as it is, or the base image with plate and logo composited at the layout. */
  datatype Output = Unchanged(png: BasePng) | Composited(base: BasePng, logo: LogoSource, layout: Layout)

  /** JavaScript truthiness of an optional string: present and not empty. */
  predicate Truthy(s: Option<string>) {
    s.Some? && s.value != ""
  }

  /** `hasBuf`: a Buffer of at least one byte was passed. */
  predicate HasBuffer(logoBuffer: Option<seq<bv8>>) {
    logoBuffer.Some? && |logoBuffer.value| > 0
  }

  /** The first step: the coloured renderer when the mode is "default", the plain encoder otherwise. */
  function BaseImage(text: string, m: seq<seq<bool>>, size: int, logoMode: Option<string>): (b: BasePng)
    requires IsSquare(m)
    ensures b.ColouredPng? <==> logoMode == Some("default")
    ensures b.ColouredPng? ==> b.scene == ColoredScene(m, size) && b.side == size
    ensures b.PlainPng? ==> b.text == text && b.width == size
  {
    if logoMode == Some("default") then ColouredPng(ColoredScene(m, size), size) else PlainPng(text, size)
  }

  /**
   * createQrPngWithLogo. `m` is the module matrix the encoder builds for `text`; `files` is the
   * set of paths that exist; `width` and `height` are what the image library reports for the
   * base PNG (0 when it reports none).
   */
  function CreateQrPngWithLogo(
    text: string, m: seq<seq<bool>>, logoPath: Option<string>, logoBuffer: Option<seq<bv8>>,
    size: int, logoMode: Option<string>, files: set<string>, width: nat, height: nat): (r: Output)
    requires IsSquare(m)
    ensures r.Unchanged? <==> !HasBuffer(logoBuffer) && (!Truthy(logoPath) || logoPath.value !in files)
    ensures r.Unchanged? ==> r.png == BaseImage(text, m, size, logoMode)
    ensures r.Composited? ==> r.base == BaseImage(text, m, size, logoMode)
    ensures r.Composited? ==> r.layout == LogoLayout(QrSide(width, height, size))
    ensures HasBuffer(logoBuffer) ==> r.Composited? && r.logo == FromBuffer(logoBuffer.value)
    ensures r.Composited? && !HasBuffer(logoBuffer) ==> Truthy(logoPath) && logoPath.value in files && r.logo == FromPath(logoPath.value)
  {
    var qrPng := BaseImage(text, m, size, logoMode);
    var hasBuf := HasBuffer(logoBuffer);
    if !hasBuf && !Truthy(logoPath) then Unchanged(qrPng)
    else if !hasBuf && Truthy(logoPath) && logoPath.value !in files then Unchanged(qrPng)
    else
      var qrSize := QrSide(width, height, size);
      var logo := if hasBuf then FromBuffer(logoBuffer.value) else FromPath(logoPath.value);
      Composited(qrPng, logo, LogoLayout(qrSize))
  }

  /**
   * When the image library reports the base image as side x side, plate and logo are placed
   * inside it, the logo inside the plate.
   */
  lemma CompositeFitsImage(
    text: string, m: seq<seq<bool>>, logoPath: Option<string>, logoBuffer: Option<seq<bv8>>,
    size: int, logoMode: Option<string>, files: set<string>, side: nat)
    requires IsSquare(m) && side > 0
    requires CreateQrPngWithLogo(text, m, logoPath, logoBuffer, size, logoMode, files, side, side).Composited?
    ensures var g := CreateQrPngWithLogo(text, m, logoPath, logoBuffer, size, logoMode, files, side, side).layout;
      g.qrSize == side
      && 0 <= g.plateLeft && g.plateLeft + g.plateSize <= side
      && g.plateLeft <= g.logoLeft && g.logoLeft + g.logoMax <= g.plateLeft + g.plateSize
  {
    PlateInsideImage(side);
    LogoInsidePlate(side);
  }
}
