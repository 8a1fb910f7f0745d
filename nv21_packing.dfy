/** The luma copy and chroma interleave of `MainActivity.processImage`: a
    `YUV_420_888` image (one luma plane, two chroma planes) is packed into one
    byte array, luma first, then one U byte and one V byte per chroma sample,
    skipping row padding in the chroma buffers.

    The functions below follow the loops step by step (one chroma pair, one row
    of pairs, the padding skip, all rows); `PackNv21` is the whole packing and
    `PackPlanes` is the imperative loop proved equal to it. The closed form of
    what `PackNv21` computes is in module `Nv21Layout`. */
module Nv21Packing {
  import opened Java
  import opened ByteBuffers

  /** An `Image.Plane`: its buffer, row stride and pixel stride. */
  datatype Plane = Plane(buffer: ByteBuffer, rowStride: Int32, pixelStride: Int32)

  /** An `android.media.Image`: width, height and planes (three for YUV_420_888). */
  datatype Image = Image(width: Int32, height: Int32, planes: seq<Plane>)

  /** The state of the chroma loop: both chroma cursors, the output array's
      contents and `uvIndex`, the next write position. */
  datatype Progress = Progress(u: ByteBuffer, v: ByteBuffer, out: seq<byte>, index: int)

  /** The loop bounds and stride values, fixed before the chroma loop starts. */
  datatype Geometry = Geometry(halfWidth: int, rows: int, rowStride: int, uvRowBytes: int)

  /** The geometry the source derives: `width / 2` columns, `height / 2` rows,
      and both chroma planes use plane 1's row and pixel stride. */
  function GeometryOf(img: Image): (g: Geometry)
    requires |img.planes| >= 3
    ensures g.rowStride == img.planes[1].rowStride
    ensures 0 <= img.width ==> g.halfWidth == img.width / 2 && 0 <= img.width - 2 * g.halfWidth <= 1
    ensures 0 <= img.height ==> g.rows == img.height / 2 && 0 <= img.height - 2 * g.rows <= 1
    ensures g.uvRowBytes == Wrap(g.halfWidth * img.planes[1].pixelStride)
  {
    Geometry(Half(img.width), Half(img.height), img.planes[1].rowStride,
             Wrap(Half(img.width) * img.planes[1].pixelStride))
  }

  /** The luma bytes `yBuffer.get(yBytes)` reads: everything from the cursor to the limit. */
  function Luma(img: Image): (y: seq<byte>)
    requires |img.planes| >= 1
    ensures |y| == Remaining(img.planes[0].buffer)
  {
    img.planes[0].buffer.data[img.planes[0].buffer.position..]
  }

  /** A fresh Java `byte[]` of length `n`: all zeros. */
  function Zeros(n: nat): (z: seq<byte>)
    ensures |z| == n && forall i :: 0 <= i < n ==> z[i] == 0
  {
    seq(n, _ => 0)
  }

  /** `nv21Bytes[i] = b`, which throws when `i` is out of range. */
  function Store(out: seq<byte>, i: int, b: byte): (r: Result<seq<byte>>)
    ensures r.Success? <==> 0 <= i < |out|
    ensures r.Success? ==> r.value == out[i := b]
    ensures r.Failure? ==> r.error == IndexOutOfBounds
  {
    if 0 <= i < |out| then Success(out[i := b]) else Failure(IndexOutOfBounds)
  }

  /** One pass of the inner loop body: read U, store it, read V, store it. */
  function PairStep(p: Progress): Result<Progress>
  {
    var ur :- Get(p.u);
    var out1 :- Store(p.out, p.index, ur.0);
    var vr :- Get(p.v);
    var out2 :- Store(out1, p.index + 1, vr.0);
    Success(Progress(ur.1, vr.1, out2, p.index + 2))
  }

  /** The inner loop with `n` columns left. */
  function Columns(p: Progress, n: int): Result<Progress>
    decreases n
  {
    if n <= 0 then Success(p)
    else
      var q :- PairStep(p);
      Columns(q, n - 1)
  }

  /** The padding skip after a row: when `rowStride > uvRowBytes` both cursors
      move on by `rowStride - uvRowBytes` (all in `int` arithmetic). */
  function SkipPadding(p: Progress, rowStride: int, uvRowBytes: int): Result<Progress>
  {
    if rowStride > uvRowBytes then
      var gap := Wrap(rowStride - uvRowBytes);
      var u :- SetPosition(p.u, Wrap(p.u.position + gap));
      var v :- SetPosition(p.v, Wrap(p.v.position + gap));
      Success(p.(u := u, v := v))
    else
      Success(p)
  }

  /** The outer loop with `n` rows left. */
  function Rows(p: Progress, g: Geometry, n: int): Result<Progress>
    decreases n
  {
    if n <= 0 then Success(p)
    else
      var q :- Columns(p, g.halfWidth);
      var q' :- SkipPadding(q, g.rowStride, g.uvRowBytes);
      Rows(q', g, n - 1)
  }

  /** The output array before the chroma loop: the luma bytes, then zeros. */
  function InitialOut(img: Image, n: nat): (out: seq<byte>)
    requires |img.planes| >= 1 && Remaining(img.planes[0].buffer) <= n
    ensures |out| == n
  {
    Luma(img) + Zeros(n - Remaining(img.planes[0].buffer))
  }

  /** The whole packing in `MainActivity.processImage`: the packed array, or the exception thrown. */
  function PackNv21(img: Image): Result<seq<byte>>
  {
    if |img.planes| < 3 then Failure(IndexOutOfBounds)
    else
      var ySize := Remaining(img.planes[0].buffer);
      var n := Wrap(ySize + ySize / 2);
      if n < 0 then Failure(NegativeArraySize)
      else
        var start := Progress(Rewind(img.planes[1].buffer), Rewind(img.planes[2].buffer),
                              InitialOut(img, n), ySize);
        var g := GeometryOf(img);
        var p :- Rows(start, g, g.rows);
        Success(p.out)
  }

  /** The packing as the source writes it: a local array filled by a nested
      loop that moves two buffer cursors; it yields exactly `PackNv21`. */
  method PackPlanes(img: Image) returns (r: Result<seq<byte>>)
    ensures r == PackNv21(img)
  {
    if |img.planes| < 3 {
      return Failure(IndexOutOfBounds);
    }
    var yBuffer := img.planes[0].buffer;
    var uBuffer := img.planes[1].buffer;
    var vBuffer := img.planes[2].buffer;

    var ySize := Remaining(yBuffer);
    var size := Wrap(ySize + ySize / 2);
    if size < 0 {
      return Failure(NegativeArraySize);
    }
    var nv21 := CopyLuma(img, size);

    var uvIndex := ySize;
    uBuffer := Rewind(uBuffer);
    vBuffer := Rewind(vBuffer);
    var rowStride: int := img.planes[1].rowStride;
    var uvPixelStride: int := img.planes[1].pixelStride;
    var uvRowBytes: int := Wrap(Half(img.width) * uvPixelStride);
    var halfWidth := Half(img.width);
    var rows := Half(img.height);
    ghost var g := GeometryOf(img);
    ghost var goal := Rows(Progress(uBuffer, vBuffer, nv21[..], uvIndex), g, rows);
    assert PackNv21(img) == if goal.Failure? then Failure(goal.error) else Success(goal.value.out);

    var row := 0;
    while row < rows
      invariant 0 <= row && (0 <= rows ==> row <= rows)
      invariant nv21.Length == size && 0 <= uvIndex
      invariant Rows(Progress(uBuffer, vBuffer, nv21[..], uvIndex), g, rows - row) == goal
    {
      var packed := PackChromaRow(nv21, uBuffer, vBuffer, uvIndex, halfWidth);
      if packed.Failure? {
        return Failure(packed.error);
      }
      var skipped := SkipRowPadding(packed.value, rowStride, uvRowBytes);
      if skipped.Failure? {
        return Failure(skipped.error);
      }
      uBuffer, vBuffer, uvIndex := skipped.value.u, skipped.value.v, skipped.value.index;
      row := row + 1;
    }
    return Success(nv21[..]);
  }

  /** The padding skip at the end of a chroma row in `MainActivity.processImage`. */
  method SkipRowPadding(p: Progress, rowStride: int, uvRowBytes: int) returns (r: Result<Progress>)
    ensures r == SkipPadding(p, rowStride, uvRowBytes)
  {
    var uBuffer, vBuffer := p.u, p.v;
    if rowStride > uvRowBytes {
      var movedU := SetPosition(uBuffer, Wrap(uBuffer.position + Wrap(rowStride - uvRowBytes)));
      if movedU.Failure? {
        return Failure(movedU.error);
      }
      var movedV := SetPosition(vBuffer, Wrap(vBuffer.position + Wrap(rowStride - uvRowBytes)));
      if movedV.Failure? {
        return Failure(movedV.error);
      }
      uBuffer := movedU.value;
      vBuffer := movedV.value;
    }
    return Success(p.(u := uBuffer, v := vBuffer));
  }

  /** `new byte[size]` followed by `yBuffer.get(yBytes)` and the
      `System.arraycopy` of the luma bytes to the front. */
  method CopyLuma(img: Image, size: int) returns (nv21: array<byte>)
    requires |img.planes| >= 1 && Remaining(img.planes[0].buffer) <= size
    ensures fresh(nv21) && nv21[..] == InitialOut(img, size)
  {
    var yBuffer := img.planes[0].buffer;
    var ySize := Remaining(yBuffer);
    var yBytes := yBuffer.data[yBuffer.position..];
    nv21 := new byte[size](_ => 0);
    forall i | 0 <= i < ySize {
      nv21[i] := yBytes[i];
    }
    assert nv21[..] == InitialOut(img, size);
  }

  /** The inner loop of the packing: `halfWidth` U/V pairs read from the two
      cursors and stored from `uvIndex` on. It yields what `Columns` yields
      from the array's contents on entry, and on success the array holds the
      new contents. */
  method PackChromaRow(nv21: array<byte>, u: ByteBuffer, v: ByteBuffer, uvIndex: int, halfWidth: int)
    returns (r: Result<Progress>)
    requires 0 <= uvIndex
    modifies nv21
    ensures r == Columns(Progress(u, v, old(nv21[..]), uvIndex), halfWidth)
    ensures r.Success? ==> r.value.out == nv21[..] && 0 <= r.value.index
  {
    var uBuffer, vBuffer, index := u, v, uvIndex;
    ghost var goal := Columns(Progress(u, v, nv21[..], uvIndex), halfWidth);
    var col := 0;
    while col < halfWidth
      invariant 0 <= col && (0 <= halfWidth ==> col <= halfWidth)
      invariant 0 <= index
      invariant Columns(Progress(uBuffer, vBuffer, nv21[..], index), halfWidth - col) == goal
    {
      ghost var before := Progress(uBuffer, vBuffer, nv21[..], index);
      var gotU := Get(uBuffer);
      if gotU.Failure? {
        return Failure(gotU.error);
      }
      uBuffer := gotU.value.1;
      if index >= nv21.Length {
        return Failure(IndexOutOfBounds);
      }
      nv21[index] := gotU.value.0;
      index := index + 1;
      ghost var half := nv21[..];
      assert Store(before.out, before.index, gotU.value.0) == Success(half);
      var gotV := Get(vBuffer);
      if gotV.Failure? {
        return Failure(gotV.error);
      }
      vBuffer := gotV.value.1;
      if index >= nv21.Length {
        return Failure(IndexOutOfBounds);
      }
      nv21[index] := gotV.value.0;
      index := index + 1;
      assert Store(half, before.index + 1, gotV.value.0) == Success(nv21[..]);
      assert PairStep(before) == Success(Progress(uBuffer, vBuffer, nv21[..], index));
      col := col + 1;
    }
    return Success(Progress(uBuffer, vBuffer, nv21[..], index));
  }
}
