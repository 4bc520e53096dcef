/** Rectangular arrays as nested sequences, indexed `[row][column]` for a
    matrix and `[row][column][channel]` for an image, together with the
    element-wise steps of the reassembly: channel slicing, stacking along the
    last axis, clipping to the byte range and the cast to unsigned 8-bit. */
module Raster {

  /** An unsigned 8-bit intensity. */
  type Byte = x: int | 0 <= x < 256

  /** A channel matrix as the decomposition sees it (float values). */
  type Matrix = seq<seq<real>>

  /** An `h x w` grid. */
  predicate IsGrid<T>(m: seq<seq<T>>, h: nat, w: nat)
  {
    |m| == h && forall i :: 0 <= i < h ==> |m[i]| == w
  }

  /** An `h x w x c` array. */
  predicate IsCube<T>(a: seq<seq<seq<T>>>, h: nat, w: nat, c: nat)
  {
    |a| == h && forall i :: 0 <= i < h ==> IsGrid(a[i], w, c)
  }

  /** A sequence of `h x w` planes. */
  predicate ArePlanes<T>(chs: seq<seq<seq<T>>>, h: nat, w: nat)
  {
    forall ch {:trigger chs[ch]} :: 0 <= ch < |chs| ==> IsGrid(chs[ch], h, w)
  }

  /** `a[:, :, ch]`: the `h x w` plane of channel `ch`. */
  function Slice<T>(a: seq<seq<seq<T>>>, ch: nat, h: nat, w: nat, c: nat): (m: seq<seq<T>>)
    requires IsCube(a, h, w, c) && ch < c
    ensures IsGrid(m, h, w)
    ensures forall i, j :: 0 <= i < h && 0 <= j < w ==> m[i][j] == a[i][j][ch]
  {
    seq(h, i requires 0 <= i < h => seq(w, j requires 0 <= j < w => a[i][j][ch]))
  }

  /** `np.stack(chs, axis=2)`: interleave equally shaped planes, plane `ch`
      becoming channel `ch` of every cell. */
  function Stack<T>(chs: seq<seq<seq<T>>>, h: nat, w: nat): (a: seq<seq<seq<T>>>)
    requires ArePlanes(chs, h, w)
    ensures IsCube(a, h, w, |chs|)
    ensures forall i, j, ch :: 0 <= i < h && 0 <= j < w && 0 <= ch < |chs| ==> a[i][j][ch] == chs[ch][i][j]
  {
    seq(h, i requires 0 <= i < h =>
      seq(w, j requires 0 <= j < w =>
        seq(|chs|, ch requires 0 <= ch < |chs| => chs[ch][i][j])))
  }

  /** Two `h x w` grids with the same cells are equal. */
  lemma GridExtensional<T>(m1: seq<seq<T>>, m2: seq<seq<T>>, h: nat, w: nat)
    requires IsGrid(m1, h, w) && IsGrid(m2, h, w)
    requires forall i, j :: 0 <= i < h && 0 <= j < w ==> m1[i][j] == m2[i][j]
    ensures m1 == m2
  {
    forall i | 0 <= i < h
      ensures m1[i] == m2[i]
    {
      assert forall j :: 0 <= j < w ==> m1[i][j] == m2[i][j];
    }
  }

  /** Two `h x w x c` arrays with the same cells are equal. */
  lemma CubeExtensional<T>(a1: seq<seq<seq<T>>>, a2: seq<seq<seq<T>>>, h: nat, w: nat, c: nat)
    requires IsCube(a1, h, w, c) && IsCube(a2, h, w, c)
    requires forall i, j, ch :: 0 <= i < h && 0 <= j < w && 0 <= ch < c ==> a1[i][j][ch] == a2[i][j][ch]
    ensures a1 == a2
  {
    forall i | 0 <= i < h
      ensures a1[i] == a2[i]
    {
      GridExtensional(a1[i], a2[i], w, c);
    }
  }

  /** Slicing a stacked array gives back the plane that was stacked. */
  lemma SliceOfStack<T>(chs: seq<seq<seq<T>>>, h: nat, w: nat, ch: nat)
    requires ArePlanes(chs, h, w)
    requires ch < |chs|
    ensures Slice(Stack(chs, h, w), ch, h, w, |chs|) == chs[ch]
  {
    GridExtensional(Slice(Stack(chs, h, w), ch, h, w, |chs|), chs[ch], h, w);
  }

  /** Stacking the slices of an array gives back the array. */
  lemma StackOfSlices<T>(a: seq<seq<seq<T>>>, h: nat, w: nat, c: nat)
    requires IsCube(a, h, w, c)
    ensures Stack(seq(c, ch requires 0 <= ch < c => Slice(a, ch, h, w, c)), h, w) == a
  {
    var planes := seq(c, ch requires 0 <= ch < c => Slice(a, ch, h, w, c));
    CubeExtensional(Stack(planes, h, w), a, h, w, c);
  }

  /** The float value of every byte of a plane, as PCA receives it. */
  function Widen(m: seq<seq<Byte>>, h: nat, w: nat): (r: Matrix)
    requires IsGrid(m, h, w)
    ensures IsGrid(r, h, w)
    ensures forall i, j :: 0 <= i < h && 0 <= j < w ==> r[i][j] == m[i][j] as real
  {
    seq(h, i requires 0 <= i < h => seq(w, j requires 0 <= j < w => m[i][j] as real))
  }

  /** `np.clip(v, 0, 255)` on one value. */
  function Clip(v: real): (r: real)
    ensures 0.0 <= r <= 255.0
    ensures 0.0 <= v <= 255.0 ==> r == v
  {
    if v < 0.0 then 0.0 else if 255.0 < v then 255.0 else v
  }

  function Distance(x: real, y: real): (r: real) { if x <= y then y - x else x - y }

  /** Clipping moves a value to the nearest point of [0, 255]: saturation,
      not wrap-around or rescaling. */
  lemma ClipIsNearest(v: real, y: real)
    requires 0.0 <= y <= 255.0
    ensures Distance(v, Clip(v)) <= Distance(v, y)
  {
  }

  /** Clipping twice is clipping once. */
  lemma ClipIdempotent(v: real)
    ensures Clip(Clip(v)) == Clip(v)
  {
  }

  /** `np.clip(m, 0, 255)` on a whole plane. */
  function ClipMatrix(m: Matrix, h: nat, w: nat): (r: Matrix)
    requires IsGrid(m, h, w)
    ensures IsGrid(r, h, w)
    ensures forall i, j :: 0 <= i < h && 0 <= j < w ==> r[i][j] == Clip(m[i][j])
    ensures forall i, j :: 0 <= i < h && 0 <= j < w ==> 0.0 <= r[i][j] <= 255.0
    ensures forall i, j :: 0 <= i < h && 0 <= j < w && 0.0 <= m[i][j] <= 255.0 ==> r[i][j] == m[i][j]
  {
    seq(h, i requires 0 <= i < h => seq(w, j requires 0 <= j < w => Clip(m[i][j])))
  }

  /** Every cell of an `h x w x c` array lies in [0, 255]. */
  predicate InByteRange(a: seq<seq<seq<real>>>, h: nat, w: nat, c: nat)
    requires IsCube(a, h, w, c)
  {
    forall i, j, ch :: 0 <= i < h && 0 <= j < w && 0 <= ch < c ==> 0.0 <= a[i][j][ch] <= 255.0
  }

  /** `astype(np.uint8)` on one in-range float: the fraction is dropped
      (truncation, not rounding). */
  function ToByte(v: real): (b: Byte)
    requires 0.0 <= v <= 255.0
    ensures b as real <= v < b as real + 1.0
  {
    v.Floor
  }

  /** `astype(np.uint8)` on a whole array whose cells are already in range. */
  function CastToBytes(a: seq<seq<seq<real>>>, h: nat, w: nat, c: nat): (r: seq<seq<seq<Byte>>>)
    requires IsCube(a, h, w, c) && InByteRange(a, h, w, c)
    ensures IsCube(r, h, w, c)
    ensures forall i, j, ch :: 0 <= i < h && 0 <= j < w && 0 <= ch < c ==>
      r[i][j][ch] as real <= a[i][j][ch] < r[i][j][ch] as real + 1.0
  {
    seq(h, i requires 0 <= i < h =>
      seq(w, j requires 0 <= j < w =>
        seq(c, ch requires 0 <= ch < c => ToByte(a[i][j][ch]))))
  }

  /** A cell that already holds a whole number survives the cast unchanged. */
  lemma CastKeepsWholeNumbers(a: seq<seq<seq<real>>>, h: nat, w: nat, c: nat, i: nat, j: nat, ch: nat)
    requires IsCube(a, h, w, c) && InByteRange(a, h, w, c)
    requires i < h && j < w && ch < c
    requires a[i][j][ch] == a[i][j][ch].Floor as real
    ensures CastToBytes(a, h, w, c)[i][j][ch] as real == a[i][j][ch]
  {
  }
}
