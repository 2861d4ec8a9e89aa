/** The bright-pixel masker: an RGB image becomes a boolean mask of the pixels
    whose three colour channels are all strictly above a fixed threshold. */
module BrightPixels {

  import opened Raster

  /** An 8-bit colour sample. */
  type Byte = x: int | 0 <= x < 256

  /** A channel must exceed this value (strictly) for its pixel to count as bright. */
  const Threshold: Byte := 175

  datatype Rgb = Rgb(red: Byte, green: Byte, blue: Byte)
  {
    /** The pixel's channel axis, in RGB order. */
    function Channels(): seq<Byte>
    {
      [red, green, blue]
    }
  }

  /** A height x width x 3 image. */
  type Image = seq<seq<Rgb>>

  /** `(pixel > 175).all()` taken over the channel axis. */
  predicate IsBright(p: Rgb)
  {
    forall c :: 0 <= c < |p.Channels()| ==> p.Channels()[c] > Threshold
  }

  /** Brightness spelled out channel by channel. */
  lemma BrightIffAllChannels()
    ensures forall p: Rgb {:trigger IsBright(p)} :: IsBright(p) <==> p.red > Threshold && p.green > Threshold && p.blue > Threshold
  {
    forall p: Rgb
      ensures IsBright(p) <==> p.red > Threshold && p.green > Threshold && p.blue > Threshold
    {
      assert p.Channels()[0] == p.red && p.Channels()[1] == p.green && p.Channels()[2] == p.blue;
    }
  }

  /** `get_bright_pixels`: one mask bit per pixel. */
  function BrightMask(img: Image): (m: Mask)
    ensures SameShape(m, img)
    ensures forall w: nat :: Rect(img, w) ==> Rect(m, w)
    ensures forall i, j :: 0 <= i < |img| && 0 <= j < |img[i]| ==>
              (m[i][j] <==> img[i][j].red > 175 && img[i][j].green > 175 && img[i][j].blue > 175)
  {
    BrightIffAllChannels();
    seq(|img|, i requires 0 <= i < |img| =>
      seq(|img[i]|, j requires 0 <= j < |img[i]| => IsBright(img[i][j])))
  }

  /** A pixel with one channel exactly at the threshold is not bright. */
  lemma ChannelAtThresholdIsDim(p: Rgb)
    requires p.red == Threshold || p.green == Threshold || p.blue == Threshold
    ensures !IsBright(p)
  {
    if p.red == Threshold {
      assert p.Channels()[0] == Threshold;
    } else if p.green == Threshold {
      assert p.Channels()[1] == Threshold;
    } else {
      assert p.Channels()[2] == Threshold;
    }
  }

  /** An image in which every pixel has some channel at or below 175 gives an all-false mask. */
  lemma DimImageGivesBlankMask(img: Image)
    requires forall i, j :: 0 <= i < |img| && 0 <= j < |img[i]| ==>
               img[i][j].red <= Threshold || img[i][j].green <= Threshold || img[i][j].blue <= Threshold
    ensures forall i, j :: 0 <= i < |img| && 0 <= j < |img[i]| ==> !BrightMask(img)[i][j]
  {
  }

  /** Every channel of `p` is at least the matching channel of `q`. */
  predicate Dominates(p: Rgb, q: Rgb)
  {
    p.red >= q.red && p.green >= q.green && p.blue >= q.blue
  }

  /** Raising channel values never clears a mask bit. */
  lemma BrightMaskMonotone(dim: Image, lit: Image)
    requires SameShape(dim, lit)
    requires forall i, j :: 0 <= i < |dim| && 0 <= j < |dim[i]| ==> Dominates(lit[i][j], dim[i][j])
    ensures forall i, j :: 0 <= i < |dim| && 0 <= j < |dim[i]| && BrightMask(dim)[i][j] ==> BrightMask(lit)[i][j]
  {
  }

}
