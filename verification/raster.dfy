/**
  Grey-level rasters, the front-cover crop and the two threshold-and-invert
  renderings handed to the text detector.
 */
module Raster {

  /** A grey-level image: `height` rows of `width` pixels, each 0..255, top row first. */
  datatype Image = Image(width: nat, height: nat, rows: seq<seq<int>>) {
    predicate Valid() {
      && |rows| == height
      && forall i :: 0 <= i < |rows| ==> |rows[i]| == width && forall j :: 0 <= j < width ==> 0 <= rows[i][j] <= 255
    }

    /** Every pixel is pure black (0) or pure white (255). */
    predicate TwoLevel()
      requires Valid()
    {
      forall i, j :: 0 <= i < height && 0 <= j < width ==> rows[i][j] == 0 || rows[i][j] == 255
    }
  }

  /** Threshold for light text on a dark background. */
  const LightTextThreshold := 160
  /** Threshold for dark text on a light background. */
  const DarkTextThreshold := 120

  /** Width of the front cover cut from a spread `width` pixels wide: the right half, rounding the cut down. */
  function CoverWidth(width: nat): (w: nat)
    ensures w + width / 2 == width
    ensures width <= 2 * w <= width + 1
  {
    width - width / 2
  }

  /** The front cover: columns `[width / 2, width)` and every row of a spread. */
  function FrontCover(img: Image): (r: Image)
    requires img.Valid()
    ensures r.Valid()
    ensures r.width == CoverWidth(img.width) && r.height == img.height
    ensures forall i, j :: 0 <= i < img.height && img.width / 2 <= j < img.width ==>
                             r.rows[i][j - img.width / 2] == img.rows[i][j]
  {
    var left := img.width / 2;
    Image(img.width - left, img.height, seq(img.height, i requires 0 <= i < img.height => img.rows[i][left..]))
  }

  /** Pixels left of the cut never reach the cover: spreads that agree on the right half have the same cover. */
  lemma FrontCoverIgnoresLeftHalf(a: Image, b: Image)
    requires a.Valid() && b.Valid()
    requires a.width == b.width && a.height == b.height
    requires forall i, j :: 0 <= i < a.height && a.width / 2 <= j < a.width ==> a.rows[i][j] == b.rows[i][j]
    ensures FrontCover(a) == FrontCover(b)
  {
    var ra, rb := FrontCover(a), FrontCover(b);
    forall i | 0 <= i < a.height
      ensures ra.rows[i] == rb.rows[i]
    {
      forall j | 0 <= j < ra.width
        ensures ra.rows[i][j] == rb.rows[i][j]
      {
        assert ra.rows[i][j] == a.rows[i][j + a.width / 2];
        assert rb.rows[i][j] == b.rows[i][j + a.width / 2];
      }
    }
  }

  /** Global thresholding: pixels brighter than `t` become white (255), all others black (0). */
  function Threshold(img: Image, t: int): (r: Image)
    requires img.Valid()
    ensures r.Valid() && r.width == img.width && r.height == img.height
    ensures r.TwoLevel()
    ensures forall i, j :: 0 <= i < img.height && 0 <= j < img.width ==> (r.rows[i][j] == 255 <==> img.rows[i][j] > t)
  {
    Image(img.width, img.height,
          seq(img.height, i requires 0 <= i < img.height =>
            seq(img.width, j requires 0 <= j < img.width => if img.rows[i][j] > t then 255 else 0)))
  }

  /** Colour inversion of a grey image: every value `p` becomes `255 - p`. */
  function Invert(img: Image): (r: Image)
    requires img.Valid()
    ensures r.Valid() && r.width == img.width && r.height == img.height
    ensures forall i, j :: 0 <= i < img.height && 0 <= j < img.width ==> r.rows[i][j] + img.rows[i][j] == 255
  {
    Image(img.width, img.height,
          seq(img.height, i requires 0 <= i < img.height =>
            seq(img.width, j requires 0 <= j < img.width => 255 - img.rows[i][j])))
  }

  /** Inverting twice gives the image back. */
  lemma InvertInvolutive(img: Image)
    requires img.Valid()
    ensures Invert(Invert(img)) == img
  {
    var r := Invert(Invert(img));
    forall i | 0 <= i < img.height
      ensures r.rows[i] == img.rows[i]
    {
    }
  }

  /**
    One scan's rendering: threshold at `t`, then invert. A pixel brighter than
    `t` turns black, every other pixel white.
   */
  function Binarize(img: Image, t: int): (r: Image)
    requires img.Valid()
    ensures r.Valid() && r.width == img.width && r.height == img.height
    ensures r.TwoLevel()
    ensures forall i, j :: 0 <= i < img.height && 0 <= j < img.width ==>
                             r.rows[i][j] == (if img.rows[i][j] > t then 0 else 255)
  {
    Invert(Threshold(img, t))
  }

  /**
    The two scans are nested: every pixel black in the light-text rendering
    is black in the dark-text rendering too, and the two differ exactly on the
    grey values 121..160.
   */
  lemma DualScanNested(img: Image)
    requires img.Valid()
    ensures var v1, v2 := Binarize(img, LightTextThreshold), Binarize(img, DarkTextThreshold);
            forall i, j :: 0 <= i < img.height && 0 <= j < img.width ==>
                             (v1.rows[i][j] == 0 ==> v2.rows[i][j] == 0) &&
                             (v1.rows[i][j] != v2.rows[i][j] <==> DarkTextThreshold < img.rows[i][j] <= LightTextThreshold)
  {
  }
}
