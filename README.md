# PCA image compressor — Dafny model of the per-channel pipeline

The compressor takes a decoded RGB image and a quality percentage. It picks a
number of principal components `k` from the quality and the smaller image
dimension. For each of the three colour channels it runs a PCA round trip at
rank `k` (fit, transform, inverse transform) and clips the reconstruction to
[0, 255]. It then stacks the three planes back into an `h x w x 3` array and
casts that array to unsigned bytes. Finally it hands the image to a JPEG
encoder, with the percentage clamped to 10..95 as the encoder quality. The
alternative entry point skips the PCA and only applies the same quality clamp.

The model has three modules:

- `Selection` (selection.dfy): the component count `k`, the encoder quality
  and Python's truncating `int()`, all on an exact `real` quality.
- `Raster` (raster.dfy): rectangular nested sequences. It covers channel
  slicing (`a[:, :, c]`), `np.stack(..., axis=2)`, `np.clip(..., 0, 255)` and
  `astype(np.uint8)`, the last one on values already in range.
- `Compress` (compress.dfy): the channel loop as a method with a sequence
  accumulator, the entry point `CompressImage`, the spec function
  `Compressed` that both are proved against, and `CompressAlternative`.

The PCA round trip is the function-valued parameter `reconstruct`. Two
things are assumed about it. First, it returns a matrix of the shape it was
given (`PreservesShape`). Second, being a Dafny function, it is a
deterministic function of the channel matrix and `k`. The properties about
`Compressed` therefore hold for every such reconstruction.

Two facts about the code's integer conversions shape the model:

- `astype(np.uint8)` at compress_image.py:59 truncates, so `ToByte` takes the
  floor of the clipped value rather than rounding it.
- `int()` at compress_image.py:31 truncates toward zero (`Trunc`). This
  differs from the floor only when `max_components * quality / 100` is
  negative, and there `max(1, ...)` hides the difference.

## Model

| member | source | states |
|---|---|---|
| Selection.Trunc | compress_image.py:31 | Python `int()` of a float: for x >= 0 the result is the floor of x, for x < 0 the ceiling (truncation toward zero) |
| Selection.ComponentCount | compress_image.py:30-32 | for h, w >= 1 and any quality (negative, zero, above 100), 1 <= k <= min(h, w); for an empty dimension k = 0 |
| Selection.ComponentCountIsLargestAdmissible | compress_image.py:30-32 | k is exactly the largest rank j in 1..min(h, w) with j = 1 or j*100 <= min(h, w)*q; both directions, so this characterisation determines k uniquely |
| Selection.ComponentCountAtFullQuality | compress_image.py:30-32 | quality >= 100 keeps every component: k = min(h, w) |
| Selection.ComponentCountOfThinImage | compress_image.py:30-32 | if min(h, w) = 1 then k = 1 for every quality |
| Selection.ComponentCountMonotone | compress_image.py:31-32 | k never decreases as the quality increases |
| Selection.ComponentCountExamples | compress_image.py:30-32 | quality 50 on a 4x4 image gives k = 2; quality 0 on a 10x10 image gives k = 1, not 0 |
| Selection.EncoderQuality | compress_image.py:66 | the encoder quality always lies in 10..95, and a whole-number quality already in 10..95 passes through unchanged |
| Selection.EncoderQualitySaturates | compress_image.py:66 | quality >= 95 gives 95; quality < 11 gives 10; in between the result is the truncated quality |
| Selection.EncoderQualityMonotone | compress_image.py:66 | the encoder quality never decreases as the quality increases |
| Raster.Slice | compress_image.py:39 | `a[:, :, ch]` is an h x w plane whose cell (i, j) is cell (i, j, ch) of the array |
| Raster.Stack | compress_image.py:56 | stacking on axis 2 gives an h x w x n array whose cell (i, j, ch) is cell (i, j) of plane ch, so plane order becomes channel order |
| Raster.SliceOfStack | compress_image.py:56 | slicing channel ch of a stacked array gives back plane ch (round trip) |
| Raster.StackOfSlices | compress_image.py:39-56 | stacking all the slices of an array gives back the array (round trip) |
| Raster.Widen | compress_image.py:45 | the byte plane the decomposition reads keeps its shape and every value |
| Raster.Clip | compress_image.py:51 | a clipped value lies in [0, 255], and a value already in [0, 255] is unchanged |
| Raster.ClipIsNearest | compress_image.py:51 | clipping moves a value to the nearest point of [0, 255] (saturation, not wrap-around or rescaling) |
| Raster.ClipIdempotent | compress_image.py:51 | clipping twice equals clipping once |
| Raster.ClipMatrix | compress_image.py:51 | clipping a plane keeps its shape, puts every cell in [0, 255] and leaves in-range cells unchanged |
| Raster.ToByte | compress_image.py:59 | the uint8 cast of an in-range value is its floor: b <= v < b + 1 (truncation, not rounding) |
| Raster.CastToBytes | compress_image.py:59 | the cast keeps the h x w x c shape, and every cell is a byte equal to the floor of the clipped value |
| Raster.CastKeepsWholeNumbers | compress_image.py:59 | a cell that already holds a whole number survives the cast unchanged |
| Compress.ChannelMatrix | compress_image.py:39 | channel ch of the image, as the h x w float matrix the decomposition receives |
| Compress.ReconstructedChannel | compress_image.py:39-51 | the reconstructed channel keeps the h x w shape; every cell is the clip of the reconstruction and lies in [0, 255] |
| Compress.CompressChannels | compress_image.py:35-53 | the loop appends exactly 3 planes in channel order; plane ch is channel ch reconstructed at the same rank k and clipped |
| Compress.Compressed | compress_image.py:56-59 | the reassembled image is h x w x 3, and its cell (i, j, ch) is the floor of cell (i, j) of the clipped reconstruction of channel ch |
| Compress.CompressImage | compress_image.py:23-67 | succeeds exactly when h, w >= 1. On success it uses one k with 1 <= k <= min(h, w) for all channels, returns the reassembled h x w x 3 image, and gives an encoder quality in 10..95 |
| Compress.CompressAlternative | compress_image.py:83-91 | the image goes to the encoder unchanged, with the same quality clamp (10..95) as `compress_image` |
| Compress.CompressedChannelIndependent | compress_image.py:37-56 | no cross-channel mixing: images that agree on channel ch produce outputs that agree on channel ch |
| Compress.CompressedExactIsIdentity | compress_image.py:45-59 | if the reconstruction reproduces every channel exactly, the output image equals the input image |
| Compress.CompressedNearMissDropsOne | compress_image.py:51-59 | a reconstructed value within one unit below a non-zero original byte v (floating-point round-off) comes out as v - 1, because the cast truncates instead of rounding |

## Left out

- The PCA numerics (compress_image.py:42-48) are not modelled. They are sklearn floating-point linear algebra. The model makes them the parameter `reconstruct` and assumes that it preserves shape and is deterministic. Rank-k optimality and the exact reconstruction of a constant channel are not proved; `CompressedExactIsIdentity` takes exactness as a hypothesis.
- Image decoding, RGB conversion, `Image.fromarray`, and JPEG encoding and saving (compress_image.py:16-22, 62, 67, 83-85, 91) are foreign-library I/O and are not modelled. The model's input is the decoded `h x w x 3` byte array. Its output is the `EncoderInput` (pixels and quality) that the code passes to the encoder.
- Logging via `print` (compress_image.py:69-70, 73, 93) and the catch-and-reraise blocks (72-74, 95-97) are not modelled. The empty-image rejection is an `Err` result instead of an exception.
- Compress.CompressedChannelIndependent: assumes the PCA round trip is deterministic, because `reconstruct` is a function. The code at compress_image.py:42 builds `PCA(n_components=...)` with no `svd_solver` and no `random_state`. For large images with a small enough `k`, sklearn then picks randomized SVD, which draws from the unseeded global NumPy random generator. Two calls on the same channel may then differ, so this lemma holds only under the determinism assumption.
- Compress.CompressImage: `pixels == Compressed(...)` makes the output a function of the image and the quality. Under the randomized solver described above, the code gives no such guarantee from one run to the next.
- Compress.CompressedExactIsIdentity: exactness is a hypothesis. Float64 PCA, even at full rank, returns values off by round-off, and `CompressedNearMissDropsOne` shows that a value just below v becomes v - 1. So quality 100 does not in general return the input unchanged.
- Selection.ComponentCount: computes `max_components * quality / 100` in exact real arithmetic. IEEE double rounding, which can move a product that lies exactly on an integer boundary, is not modelled.
- Selection.Trunc: does not model that `int()` raises `OverflowError` on an infinite float and `ValueError` on NaN. The quality itself is always a finite real here, but the float product at compress_image.py:31 can still overflow to infinity (next line).
- Compress.CompressImage: does not model the overflow at compress_image.py:31. When a finite quality makes |min(h, w) * quality| exceed the double range (about 1.8e308), for example quality 1e308 or -1e308 on a 2x2 image, the product becomes infinite, `int()` raises, and lines 72-74 re-raise. The exact-real model computes a component count and returns `Ok` instead.
- Compress.CompressImage: on an empty image the code fails inside the decomposition library's input validation. The model returns `Err` at that point without modelling the library's message.
- app.py (HTTP routing, file storage, extension allow-list, compression ratio) is not part of this model.
