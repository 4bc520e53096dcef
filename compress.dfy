/** The per-channel rank-reduction pipeline of `compress_image` and the
    encoder hand-off of both `compress_image` and
    `compress_image_alternative`.

    The PCA round trip (fit, transform, inverse transform) is a library call
    whose numerics are not modelled: it is the parameter `reconstruct`.
    Being a function, it is deterministic in the channel matrix and the
    rank; beyond that only shape preservation is assumed.

    Decoding, RGB conversion and JPEG encoding are outside; an
    `EncoderInput` is what the code hands to the encoder. */
module Compress {
  import opened Raster
  import opened Selection

  /** An RGB image as decoded: `h x w x 3` bytes. */
  type Image = seq<seq<seq<Byte>>>

  /** `PCA(n_components=k)`, `fit_transform`, then `inverse_transform`. */
  type Reconstruction = (Matrix, nat) -> Matrix

  /** The image has been converted to RGB before the pipeline runs. */
  const RgbChannels: nat := 3

  /** What is handed to the JPEG encoder: the pixels and the quality. */
  datatype EncoderInput = EncoderInput(pixels: Image, quality: int)

  datatype Result<T> = Ok(value: T) | Err(reason: string)

  /** The reconstruction returns a matrix of the shape it was given. */
  ghost predicate PreservesShape(reconstruct: Reconstruction, h: nat, w: nat)
  {
    forall m: Matrix, k: nat :: IsGrid(m, h, w) ==> IsGrid(reconstruct(m, k), h, w)
  }

  /** `img_array[:, :, ch]` as the float matrix the decomposition reads. */
  function ChannelMatrix(img: Image, h: nat, w: nat, ch: nat): (m: Matrix)
    requires IsCube(img, h, w, RgbChannels) && ch < RgbChannels
    ensures IsGrid(m, h, w)
    ensures forall i, j :: 0 <= i < h && 0 <= j < w ==> m[i][j] == img[i][j][ch] as real
  {
    Widen(Slice(img, ch, h, w, RgbChannels), h, w)
  }

  /** Channel `ch` after reconstruction at rank `k` and clipping. */
  function ReconstructedChannel(img: Image, h: nat, w: nat, k: nat, reconstruct: Reconstruction, ch: nat): (m: Matrix)
    requires IsCube(img, h, w, RgbChannels) && ch < RgbChannels
    requires PreservesShape(reconstruct, h, w)
    ensures IsGrid(m, h, w)
    ensures forall i, j :: 0 <= i < h && 0 <= j < w ==> 0.0 <= m[i][j] <= 255.0
    ensures forall i, j :: 0 <= i < h && 0 <= j < w ==>
      m[i][j] == Clip(reconstruct(ChannelMatrix(img, h, w, ch), k)[i][j])
  {
    ClipMatrix(reconstruct(ChannelMatrix(img, h, w, ch), k), h, w)
  }

  /** The channel loop: one reconstructed, clipped plane per channel,
      appended in channel order, all at the same rank `k`. */
  method CompressChannels(img: Image, h: nat, w: nat, k: nat, reconstruct: Reconstruction)
    returns (channels: seq<Matrix>)
    requires IsCube(img, h, w, RgbChannels)
    requires PreservesShape(reconstruct, h, w)
    ensures |channels| == RgbChannels
    ensures forall ch :: 0 <= ch < RgbChannels ==> channels[ch] == ReconstructedChannel(img, h, w, k, reconstruct, ch)
    ensures ArePlanes(channels, h, w)
  {
    channels := [];
    for ch := 0 to RgbChannels
      invariant |channels| == ch
      invariant forall c :: 0 <= c < ch ==> channels[c] == ReconstructedChannel(img, h, w, k, reconstruct, c)
    {
      var channelData := ChannelMatrix(img, h, w, ch);
      var reconstructed := reconstruct(channelData, k);
      reconstructed := ClipMatrix(reconstructed, h, w);
      channels := channels + [reconstructed];
    }
  }

  /** The reassembled image for rank `k`: the clipped planes stacked along
      the channel axis and cast to bytes. */
  function Compressed(img: Image, h: nat, w: nat, k: nat, reconstruct: Reconstruction): (out: Image)
    requires IsCube(img, h, w, RgbChannels)
    requires PreservesShape(reconstruct, h, w)
    ensures IsCube(out, h, w, RgbChannels)
    ensures forall i, j, ch :: 0 <= i < h && 0 <= j < w && 0 <= ch < RgbChannels ==>
      out[i][j][ch] as real <= ReconstructedChannel(img, h, w, k, reconstruct, ch)[i][j]
        < out[i][j][ch] as real + 1.0
  {
    var planes := seq(RgbChannels, ch requires 0 <= ch < RgbChannels => ReconstructedChannel(img, h, w, k, reconstruct, ch));
    var stacked := Stack(planes, h, w);
    CastToBytes(stacked, h, w, RgbChannels)
  }

  /** `compress_image` up to the JPEG hand-off.  An image with no rows or no
      columns yields a component count of 0, which the decomposition
      rejects; every other image is reassembled at the selected rank. */
  method CompressImage(img: Image, h: nat, w: nat, quality: real, reconstruct: Reconstruction)
    returns (r: Result<EncoderInput>)
    requires IsCube(img, h, w, RgbChannels)
    requires PreservesShape(reconstruct, h, w)
    ensures r.Ok? <==> 1 <= h && 1 <= w
    ensures r.Ok? ==> 1 <= ComponentCount(quality, h, w) <= Min(h, w)
    ensures r.Ok? ==> r.value.pixels == Compressed(img, h, w, ComponentCount(quality, h, w), reconstruct)
    ensures r.Ok? ==> IsCube(r.value.pixels, h, w, RgbChannels)
    ensures r.Ok? ==> 10 <= r.value.quality <= 95 && r.value.quality == EncoderQuality(quality)
  {
    var maxComponents := Min(h, w);
    var k := ComponentCount(quality, h, w);
    if maxComponents == 0 {
      return Err("n_components=0 on an empty channel matrix");
    }
    var channels := CompressChannels(img, h, w, k, reconstruct);
    assert channels == seq(RgbChannels, ch requires 0 <= ch < RgbChannels => ReconstructedChannel(img, h, w, k, reconstruct, ch));
    var stacked := Stack(channels, h, w);
    var pixels := CastToBytes(stacked, h, w, RgbChannels);
    var jpegQuality := EncoderQuality(quality);
    r := Ok(EncoderInput(pixels, jpegQuality));
  }

  /** `compress_image_alternative`: the decoded image goes to the encoder
      unchanged, with the same quality clamp as `compress_image`. */
  function CompressAlternative(img: Image, quality: real): (r: EncoderInput)
    ensures r.pixels == img
    ensures 10 <= r.quality <= 95 && r.quality == EncoderQuality(quality)
  {
    EncoderInput(img, EncoderQuality(quality))
  }

  /** Channels are compressed independently: two images that agree on
      channel `ch` give outputs that agree on channel `ch`, whatever their
      other channels hold. */
  lemma CompressedChannelIndependent(img1: Image, img2: Image, h: nat, w: nat, k: nat, reconstruct: Reconstruction, ch: nat)
    requires IsCube(img1, h, w, RgbChannels) && IsCube(img2, h, w, RgbChannels)
    requires PreservesShape(reconstruct, h, w)
    requires ch < RgbChannels
    requires forall i, j :: 0 <= i < h && 0 <= j < w ==> img1[i][j][ch] == img2[i][j][ch]
    ensures forall i, j :: 0 <= i < h && 0 <= j < w ==>
      Compressed(img1, h, w, k, reconstruct)[i][j][ch] == Compressed(img2, h, w, k, reconstruct)[i][j][ch]
  {
    GridExtensional(ChannelMatrix(img1, h, w, ch), ChannelMatrix(img2, h, w, ch), h, w);
    var m := ReconstructedChannel(img1, h, w, k, reconstruct, ch);
    assert m == ReconstructedChannel(img2, h, w, k, reconstruct, ch);
  }

  /** When the reconstruction reproduces every channel exactly, the
      pipeline returns the input image: clipping and the byte cast leave
      whole numbers in [0, 255] alone. */
  lemma CompressedExactIsIdentity(img: Image, h: nat, w: nat, k: nat, reconstruct: Reconstruction)
    requires IsCube(img, h, w, RgbChannels)
    requires PreservesShape(reconstruct, h, w)
    requires forall ch :: 0 <= ch < RgbChannels ==>
      reconstruct(ChannelMatrix(img, h, w, ch), k) == ChannelMatrix(img, h, w, ch)
    ensures Compressed(img, h, w, k, reconstruct) == img
  {
    var out := Compressed(img, h, w, k, reconstruct);
    forall i, j, ch | 0 <= i < h && 0 <= j < w && 0 <= ch < RgbChannels
      ensures out[i][j][ch] == img[i][j][ch]
    {
      assert ReconstructedChannel(img, h, w, k, reconstruct, ch)[i][j] == img[i][j][ch] as real;
    }
    CubeExtensional(out, img, h, w, RgbChannels);
  }

  /** The hazard of truncating instead of rounding: a reconstruction that
      falls short of the original byte `v` by less than one unit, as
      floating-point round-off does, comes out as `v - 1`.  (For `v = 0`
      the clip lifts such a value back to 0.) */
  lemma CompressedNearMissDropsOne(img: Image, h: nat, w: nat, k: nat, reconstruct: Reconstruction, i: nat, j: nat, ch: nat)
    requires IsCube(img, h, w, RgbChannels)
    requires PreservesShape(reconstruct, h, w)
    requires i < h && j < w && ch < RgbChannels && 1 <= img[i][j][ch]
    requires img[i][j][ch] as real - 1.0 < reconstruct(ChannelMatrix(img, h, w, ch), k)[i][j] < img[i][j][ch] as real
    ensures Compressed(img, h, w, k, reconstruct)[i][j][ch] as int == img[i][j][ch] as int - 1
  {
    var x := reconstruct(ChannelMatrix(img, h, w, ch), k)[i][j];
    assert Clip(x) == x;
    assert ReconstructedChannel(img, h, w, k, reconstruct, ch)[i][j] == x;
  }
}
