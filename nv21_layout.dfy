/** What the packing loop of `MainActivity.processImage` computes, in closed
    form. Provided the stride arithmetic does not wrap around (`Regular`), the
    packing succeeds exactly when the output array has room for every chroma
    pair and both chroma buffers reach the last read and the last skip; and
    the packed array is the luma bytes, then for each chroma row `r` and
    column `c` the U and V bytes at cursor `r * RowAdvance + c`, then zeros.
    Without that proviso, the length and the luma prefix still hold. */
module Nv21Layout {
  import opened Java
  import opened ByteBuffers
  import opened Nv21Packing
  import opened ChromaRowBytes

  /** The stride arithmetic of the chroma loop does not wrap around. */
  predicate NoWrap(g: Geometry)
  {
    0 <= g.halfWidth && INT_MIN <= g.rowStride - g.uvRowBytes <= INT_MAX
  }

  /** How far both cursors jump after a row. */
  function Gap(g: Geometry): (n: nat)
    ensures n > 0 <==> g.rowStride > g.uvRowBytes
  {
    if g.rowStride > g.uvRowBytes then g.rowStride - g.uvRowBytes else 0
  }

  // ---------------------------------------------------------------------------
  // The loop functions in closed form

  /** `out` with the bytes `w` written from index `i` on. */
  function Splice(out: seq<byte>, i: nat, w: seq<byte>): (r: seq<byte>)
    requires i + |w| <= |out|
    ensures |r| == |out|
  {
    out[..i] + w + out[i + |w|..]
  }

  lemma SpliceNothing(out: seq<byte>, i: nat)
    requires i <= |out|
    ensures Splice(out, i, []) == out
  {
    assert out[..i] + [] + out[i..] == out;
  }

  lemma SpliceTwice(out: seq<byte>, i: nat, w1: seq<byte>, w2: seq<byte>)
    requires i + |w1| + |w2| <= |out|
    ensures Splice(Splice(out, i, w1), i + |w1|, w2) == Splice(out, i, w1 + w2)
  {
    var a := Splice(Splice(out, i, w1), i + |w1|, w2);
    var b := Splice(out, i, w1 + w2);
    assert a[..i] == b[..i];
    assert a[i..i + |w1| + |w2|] == w1 + w2 by {
      assert a[i..i + |w1| + |w2|] == a[i..i + |w1|] + a[i + |w1|..i + |w1| + |w2|];
    }
    assert a == a[..i] + a[i..i + |w1| + |w2|] + a[i + |w1| + |w2|..];
    assert b == b[..i] + b[i..i + |w1| + |w2|] + b[i + |w1| + |w2|..];
  }

  /** A buffer with its cursor moved on by `k`. */
  function Moved(b: ByteBuffer, k: nat): (r: ByteBuffer)
    requires b.position + k <= |b.data|
    ensures r.data == b.data && r.position == b.position + k
  {
    b.(position := b.position + k)
  }

  /** Both cursors at the same place and the write position inside the array:
      the shape of every state the chroma loop passes through. */
  predicate Lockstep(p: Progress)
  {
    p.u.position == p.v.position && 0 <= p.index <= |p.out|
  }

  /** There is room for `n` more reads from both buffers and `writes` more stores. */
  predicate Room(p: Progress, n: nat, writes: nat)
  {
    p.u.position + n <= |p.u.data| && p.u.position + n <= |p.v.data| && p.index + writes <= |p.out|
  }

  /** One chroma pair in closed form. */
  lemma PairStepClosed(p: Progress)
    requires Lockstep(p)
    ensures PairStep(p).Success? <==> Room(p, 1, 2)
    ensures Room(p, 1, 2) ==>
      PairStep(p) == Success(Progress(Moved(p.u, 1), Moved(p.v, 1),
        Splice(p.out, p.index, [p.u.data[p.u.position], p.v.data[p.v.position]]), p.index + 2))
  {
    if Room(p, 1, 2) {
      var pair := [p.u.data[p.u.position], p.v.data[p.v.position]];
      assert p.out[p.index := pair[0]][p.index + 1 := pair[1]] == Splice(p.out, p.index, pair);
    }
  }

  lemma {:induction false} ColumnsClosed(p: Progress, n: nat)
    requires Lockstep(p)
    ensures Columns(p, n).Success? <==> Room(p, n, 2 * n)
    ensures Room(p, n, 2 * n) ==>
      Columns(p, n) == Success(Progress(Moved(p.u, n), Moved(p.v, n),
        Splice(p.out, p.index, RowPairs(p.u.data, p.v.data, p.u.position, n)), p.index + 2 * n))
    decreases n
  {
    if n == 0 {
      SpliceNothing(p.out, p.index);
    } else {
      PairStepClosed(p);
      if Room(p, 1, 2) {
        var pos := p.u.position;
        var pair := [p.u.data[pos], p.v.data[pos]];
        var q := PairStep(p).value;
        assert Columns(p, n) == Columns(q, n - 1);
        ColumnsClosed(q, n - 1);
        assert Room(p, n, 2 * n) <==> Room(q, n - 1, 2 * (n - 1));
        if Room(p, n, 2 * n) {
          SpliceTwice(p.out, p.index, pair, RowPairs(p.u.data, p.v.data, pos + 1, n - 1));
        }
      } else {
        assert Columns(p, n).Failure?;
      }
    }
  }

  lemma SkipClosed(p: Progress, g: Geometry)
    requires NoWrap(g) && Lockstep(p)
    ensures SkipPadding(p, g.rowStride, g.uvRowBytes).Success? <==> Room(p, Gap(g), 0)
    ensures Room(p, Gap(g), 0) ==>
      SkipPadding(p, g.rowStride, g.uvRowBytes) == Success(p.(u := Moved(p.u, Gap(g)), v := Moved(p.v, Gap(g))))
  {
  }


  /** The state after one whole chroma row and its padding skip. */
  function NextRow(p: Progress, g: Geometry): (q: Progress)
    requires NoWrap(g) && Lockstep(p) && Room(p, g.halfWidth + Gap(g), 2 * g.halfWidth)
    ensures Lockstep(q)
  {
    var h := g.halfWidth;
    Progress(Moved(p.u, h + Gap(g)), Moved(p.v, h + Gap(g)),
      Splice(p.out, p.index, RowPairs(p.u.data, p.v.data, p.u.position, h)), p.index + 2 * h)
  }

  /** One row of the outer loop: it fails unless both buffers reach past the
      row and its padding and the array has room for the row's pairs. */
  lemma RowStep(p: Progress, g: Geometry, n: nat)
    requires NoWrap(g) && Lockstep(p) && n > 0
    ensures Rows(p, g, n).Success? ==> Room(p, g.halfWidth + Gap(g), 2 * g.halfWidth)
    ensures Room(p, g.halfWidth + Gap(g), 2 * g.halfWidth) ==>
      Rows(p, g, n) == Rows(NextRow(p, g), g, n - 1)
  {
    var h := g.halfWidth;
    ColumnsClosed(p, h);
    if Room(p, h, 2 * h) {
      var q := Columns(p, h).value;
      SkipClosed(q, g);
      if Room(q, Gap(g), 0) {
        assert SkipPadding(q, g.rowStride, g.uvRowBytes).value == NextRow(p, g);
      } else {
        assert Rows(p, g, n).Failure?;
      }
    } else {
      assert Rows(p, g, n).Failure?;
    }
  }

  /** Room for `n` whole rows: each row reads `halfWidth + Gap` cursor
      positions from both buffers and writes `2 * halfWidth` bytes. */
  predicate RowsRoom(p: Progress, g: Geometry, n: nat)
    requires NoWrap(g)
  {
    Room(p, Times(n, g.halfWidth + Gap(g)), 2 * Times(n, g.halfWidth))
  }

  /** The state after `n` whole rows, in closed form (where there is room
      for them; `p` itself otherwise). */
  function AfterRows(p: Progress, g: Geometry, n: nat): (q: Progress)
    requires NoWrap(g)
  {
    if Lockstep(p) && RowsRoom(p, g, n) then
      var a := g.halfWidth + Gap(g);
      Progress(Moved(p.u, Times(n, a)), Moved(p.v, Times(n, a)),
        Splice(p.out, p.index, ChromaRows(p.u.data, p.v.data, p.u.position, n, g.halfWidth, a)),
        p.index + 2 * Times(n, g.halfWidth))
    else p
  }

  /** Room for `n` rows is room for the first row and for `n - 1` rows after
      it, and the closed form after `n` rows is the one after `n - 1` rows
      from the end of the first. */
  lemma AfterRowsStep(p: Progress, g: Geometry, n: nat)
    requires NoWrap(g) && Lockstep(p) && n > 0
    requires Room(p, g.halfWidth + Gap(g), 2 * g.halfWidth)
    ensures RowsRoom(p, g, n) <==> RowsRoom(NextRow(p, g), g, n - 1)
    ensures RowsRoom(p, g, n) ==> AfterRows(NextRow(p, g), g, n - 1) == AfterRows(p, g, n)
  {
    var pos, h, a := p.u.position, g.halfWidth, g.halfWidth + Gap(g);
    assert Times(n, a) == a + Times(n - 1, a) && Times(n, h) == h + Times(n - 1, h);
    if RowsRoom(p, g, n) {
      var row := RowPairs(p.u.data, p.v.data, pos, h);
      var rest := ChromaRows(p.u.data, p.v.data, pos + a, n - 1, h, a);
      assert ChromaRows(p.u.data, p.v.data, pos, n, h, a) == row + rest;
      SpliceTwice(p.out, p.index, row, rest);
    }
  }

  lemma {:induction false} RowsClosed(p: Progress, g: Geometry, n: nat)
    requires NoWrap(g) && Lockstep(p)
    ensures Rows(p, g, n).Success? <==> RowsRoom(p, g, n)
    ensures RowsRoom(p, g, n) ==> Rows(p, g, n) == Success(AfterRows(p, g, n))
    decreases n, 1
  {
    if n == 0 {
      SpliceNothing(p.out, p.index);
      assert AfterRows(p, g, 0) == p;
    } else {
      RowStep(p, g, n);
      if Room(p, g.halfWidth + Gap(g), 2 * g.halfWidth) {
        RowsClosedStep(p, g, n);
      } else {
        assert !RowsRoom(p, g, n);
      }
    }
  }

  /** The induction step of `RowsClosed`, once the first row fits. */
  lemma {:induction false} RowsClosedStep(p: Progress, g: Geometry, n: nat)
    requires NoWrap(g) && Lockstep(p) && n > 0
    requires Room(p, g.halfWidth + Gap(g), 2 * g.halfWidth)
    requires Rows(p, g, n) == Rows(NextRow(p, g), g, n - 1)
    ensures Rows(p, g, n).Success? <==> RowsRoom(p, g, n)
    ensures RowsRoom(p, g, n) ==> Rows(p, g, n) == Success(AfterRows(p, g, n))
    decreases n, 0
  {
    RowsClosed(NextRow(p, g), g, n - 1);
    AfterRowsStep(p, g, n);
  }

  // ---------------------------------------------------------------------------
  // The packing of a whole image

  /** The stride values of the image keep the source's `int` arithmetic exact:
      `(width / 2) * pixelStride` and `rowStride - uvRowBytes` do not wrap. */
  predicate Regular(img: Image)
  {
    && |img.planes| >= 3
    && 0 <= img.width && 0 <= img.height
    && INT_MIN <= (img.width / 2) * img.planes[1].pixelStride <= INT_MAX
    && INT_MIN <= img.planes[1].rowStride - (img.width / 2) * img.planes[1].pixelStride <= INT_MAX
  }

  /** Padding skipped after each chroma row: `rowStride - uvRowBytes` when
      positive, else nothing; plane 1's strides serve both chroma planes. */
  function RowGap(img: Image): (n: nat)
    requires Regular(img)
    ensures n > 0 <==> img.planes[1].rowStride > (img.width / 2) * img.planes[1].pixelStride
    ensures n > 0 ==> n == img.planes[1].rowStride - (img.width / 2) * img.planes[1].pixelStride
  {
    var uvRowBytes := (img.width / 2) * img.planes[1].pixelStride;
    if img.planes[1].rowStride > uvRowBytes then img.planes[1].rowStride - uvRowBytes else 0
  }

  /** Cursor distance between the starts of consecutive chroma rows. */
  function RowAdvance(img: Image): nat
    requires Regular(img)
  {
    img.width / 2 + RowGap(img)
  }

  /** The number of chroma bytes the loop writes. */
  function ChromaByteCount(img: Image): nat
    requires Regular(img)
  {
    2 * ((img.height / 2) * (img.width / 2))
  }

  /** The shorter of the two chroma buffers, up to its limit. */
  function ChromaLimit(img: Image): nat
    requires |img.planes| >= 3
  {
    var u, v := |img.planes[1].buffer.data|, |img.planes[2].buffer.data|;
    if u <= v then u else v
  }

  /** Both chroma buffers reach every read and every skip. */
  predicate ChromaFits(img: Image)
    requires Regular(img)
  {
    (img.height / 2) * RowAdvance(img) <= ChromaLimit(img)
  }

  /** The chroma bytes, read from cursor 0 of each buffer. */
  function ChromaBytes(img: Image): (s: seq<byte>)
    requires Regular(img) && ChromaFits(img)
    ensures |s| == ChromaByteCount(img)
  {
    TimesIsProduct(img.height / 2, RowAdvance(img));
    TimesIsProduct(img.height / 2, img.width / 2);
    ChromaRows(img.planes[1].buffer.data, img.planes[2].buffer.data, 0,
               img.height / 2, img.width / 2, RowAdvance(img))
  }

  /** The geometry the loop uses agrees with the closed form. */
  lemma GeometryRegular(img: Image)
    requires Regular(img)
    ensures GeometryOf(img).halfWidth == img.width / 2
    ensures GeometryOf(img).rows == img.height / 2
    ensures NoWrap(GeometryOf(img)) && Gap(GeometryOf(img)) == RowGap(img)
  {
    assert Half(img.width) == img.width / 2;
    assert Half(img.height) == img.height / 2;
  }

  /** Writing `w` just after a prefix `y` into `y` followed by zeros. */
  lemma SpliceAfterPrefix(y: seq<byte>, k: nat, w: seq<byte>)
    requires |w| <= k
    ensures Splice(y + Zeros(k), |y|, w) == y + w + Zeros(k - |w|)
  {
    var out := y + Zeros(k);
    assert out[..|y|] == y;
    assert out[|y| + |w|..] == Zeros(k - |w|);
  }

  /** The loop's start state for an image whose array size does not wrap. */
  function Start(img: Image): (p: Progress)
    requires Regular(img)
    requires var ySize := Remaining(img.planes[0].buffer); ySize + ySize / 2 <= INT_MAX
    ensures Lockstep(p) && p.u.position == 0 && p.v.position == 0
    ensures p.index == Remaining(img.planes[0].buffer) && p.out[..p.index] == Luma(img)
  {
    var ySize := Remaining(img.planes[0].buffer);
    Progress(Rewind(img.planes[1].buffer), Rewind(img.planes[2].buffer),
             InitialOut(img, ySize + ySize / 2), ySize)
  }

  /** Room for every row from the start state is the closed-form condition. */
  lemma StartRoom(img: Image)
    requires Regular(img)
    requires var ySize := Remaining(img.planes[0].buffer); ySize + ySize / 2 <= INT_MAX
    ensures GeometryOf(img).rows == img.height / 2 && NoWrap(GeometryOf(img))
    ensures var ySize := Remaining(img.planes[0].buffer);
      RowsRoom(Start(img), GeometryOf(img), img.height / 2) <==>
        ChromaByteCount(img) <= ySize / 2 && ChromaFits(img)
  {
    GeometryRegular(img);
    TimesIsProduct(img.height / 2, RowAdvance(img));
    TimesIsProduct(img.height / 2, img.width / 2);
  }

  /** The closed-form state after every row from the start state holds the
      luma bytes, the chroma bytes and the zero tail. */
  lemma StartAfterRows(img: Image)
    requires Regular(img)
    requires var ySize := Remaining(img.planes[0].buffer); ySize + ySize / 2 <= INT_MAX
    requires NoWrap(GeometryOf(img)) && GeometryOf(img).rows == img.height / 2
    requires RowsRoom(Start(img), GeometryOf(img), img.height / 2) && ChromaFits(img)
    ensures var ySize := Remaining(img.planes[0].buffer);
      ChromaByteCount(img) <= ySize / 2 &&
      AfterRows(Start(img), GeometryOf(img), img.height / 2).out ==
        Luma(img) + ChromaBytes(img) + Zeros(ySize / 2 - ChromaByteCount(img))
  {
    var ySize := Remaining(img.planes[0].buffer);
    GeometryRegular(img);
    StartRoom(img);
    SpliceAfterPrefix(Luma(img), ySize / 2, ChromaBytes(img));
  }

  /** The packing fails exactly when the array size wraps negative, the array
      has no room for every chroma byte, or a chroma buffer ends before a read
      or a skip; otherwise it yields luma, then the chroma pairs, then zeros. */
  lemma PackNv21Characterized(img: Image)
    requires Regular(img)
    ensures var ySize := Remaining(img.planes[0].buffer);
      PackNv21(img).Success? <==>
        ySize + ySize / 2 <= INT_MAX && ChromaByteCount(img) <= ySize / 2 && ChromaFits(img)
    ensures PackNv21(img).Success? ==>
      var ySize := Remaining(img.planes[0].buffer);
      PackNv21(img).value == Luma(img) + ChromaBytes(img) + Zeros(ySize / 2 - ChromaByteCount(img))
  {
    var ySize := Remaining(img.planes[0].buffer);
    if ySize + ySize / 2 <= INT_MAX {
      var g := GeometryOf(img);
      StartRoom(img);
      var rows := Rows(Start(img), g, g.rows);
      assert PackNv21(img) == if rows.Failure? then Failure(rows.error) else Success(rows.value.out);
      RowsClosed(Start(img), g, g.rows);
      if RowsRoom(Start(img), g, g.rows) {
        StartAfterRows(img);
      }
    } else {
      assert PackNv21(img).Failure?;
    }
  }

  /** The number of chroma sample `c` of chroma row `r`, counted row by row. */
  function Sample(img: Image, r: nat, c: nat): nat
    requires Regular(img)
  {
    r * (img.width / 2) + c
  }

  /** The chroma cursor position the loop reads sample `c` of row `r` from. */
  function ChromaCursor(img: Image, r: nat, c: nat): nat
    requires Regular(img)
  {
    r * RowAdvance(img) + c
  }

  /** The sample number and the cursor position in terms of `Times`. */
  lemma SampleByAddition(img: Image, r: nat, c: nat)
    requires Regular(img) && ChromaFits(img)
    ensures Sample(img, r, c) == Times(r, img.width / 2) + c
    ensures ChromaCursor(img, r, c) == Times(r, RowAdvance(img)) + c
    ensures 0 + Times(img.height / 2, RowAdvance(img)) <= ChromaLimit(img)
  {
    TimesIsProduct(img.height / 2, RowAdvance(img));
    TimesIsProduct(r, RowAdvance(img));
    TimesIsProduct(r, img.width / 2);
  }

  /** In a packed array, chroma sample `k = r * (width / 2) + c` sits at
      `ySize + 2 * k` (U) and `ySize + 2 * k + 1` (V), read from cursor
      `r * RowAdvance + c` of plane 1 and of plane 2: consecutive cursor
      positions within a row, whatever the pixel stride. */
  lemma ChromaPlacement(img: Image, r: nat, c: nat)
    requires Regular(img) && PackNv21(img).Success?
    requires r < img.height / 2 && c < img.width / 2
    ensures Remaining(img.planes[0].buffer) + 2 * Sample(img, r, c) + 1 < |PackNv21(img).value|
    ensures ChromaCursor(img, r, c) < ChromaLimit(img)
    ensures var at := Remaining(img.planes[0].buffer) + 2 * Sample(img, r, c);
      && PackNv21(img).value[at] == img.planes[1].buffer.data[ChromaCursor(img, r, c)]
      && PackNv21(img).value[at + 1] == img.planes[2].buffer.data[ChromaCursor(img, r, c)]
  {
    PackNv21Characterized(img);
    SampleByAddition(img, r, c);
    var u, v := img.planes[1].buffer.data, img.planes[2].buffer.data;
    var k, at := Sample(img, r, c), ChromaCursor(img, r, c);
    ChromaRowsAt(u, v, 0, img.height / 2, img.width / 2, RowAdvance(img), r, c, 2 * k, at);
    assert ChromaBytes(img) == ChromaRows(u, v, 0, img.height / 2, img.width / 2, RowAdvance(img));
    var ySize := Remaining(img.planes[0].buffer);
    PickBetween(PackNv21(img).value, Luma(img), ChromaBytes(img),
                Zeros(ySize / 2 - ChromaByteCount(img)), 2 * k);
  }

  /** Position `i` of the middle part of `y + m + z`. */
  lemma PickBetween(s: seq<byte>, y: seq<byte>, m: seq<byte>, z: seq<byte>, i: nat)
    requires s == y + m + z && i + 1 < |m|
    ensures |y| + i + 1 < |s| && s[|y| + i] == m[i] && s[|y| + i + 1] == m[i + 1]
  {
  }

  /** For even dimensions and a tightly packed luma plane, the chroma loop
      fills the rest of the array exactly: no zero tail is left. */
  lemma EvenFrameFillsBuffer(img: Image)
    requires Regular(img) && img.width % 2 == 0 && img.height % 2 == 0
    requires Remaining(img.planes[0].buffer) == img.width * img.height
    ensures ChromaByteCount(img) == Remaining(img.planes[0].buffer) / 2
    ensures PackNv21(img).Success? ==>
      ChromaFits(img) && PackNv21(img).value == Luma(img) + ChromaBytes(img)
  {
    var w, h := img.width / 2, img.height / 2;
    assert img.width * img.height == 4 * (h * w) by {
      assert img.width == 2 * w && img.height == 2 * h;
    }
    PackNv21Characterized(img);
    if PackNv21(img).Success? {
      assert Zeros(0) == [];
      assert Luma(img) + ChromaBytes(img) + [] == Luma(img) + ChromaBytes(img);
    }
  }

  // ---------------------------------------------------------------------------
  // What holds for every image

  /** `q.out` is `p.out` with only positions from `p.index` on rewritten. */
  predicate Keeps(p: Progress, q: Progress)
  {
    && |q.out| == |p.out| && p.index <= q.index
    && forall i :: 0 <= i < p.index && i < |p.out| ==> q.out[i] == p.out[i]
  }

  lemma PairStepKeeps(p: Progress)
    ensures PairStep(p).Success? ==> Keeps(p, PairStep(p).value)
  {
  }

  lemma {:induction false} ColumnsKeeps(p: Progress, n: int)
    ensures Columns(p, n).Success? ==> Keeps(p, Columns(p, n).value)
    decreases n
  {
    if n > 0 && PairStep(p).Success? {
      var q := PairStep(p).value;
      PairStepKeeps(p);
      ColumnsKeeps(q, n - 1);
      assert Columns(p, n) == Columns(q, n - 1);
    }
  }

  lemma {:induction false} RowsKeeps(p: Progress, g: Geometry, n: int)
    ensures Rows(p, g, n).Success? ==> Keeps(p, Rows(p, g, n).value)
    decreases n
  {
    if n > 0 && Columns(p, g.halfWidth).Success? {
      var q := Columns(p, g.halfWidth).value;
      ColumnsKeeps(p, g.halfWidth);
      if SkipPadding(q, g.rowStride, g.uvRowBytes).Success? {
        var q' := SkipPadding(q, g.rowStride, g.uvRowBytes).value;
        RowsKeeps(q', g, n - 1);
        assert Rows(p, g, n) == Rows(q', g, n - 1);
      }
    }
  }

  /** A packed array is `ySize + ySize / 2` bytes long and starts with the luma
      bytes verbatim, whatever the strides. */
  lemma PackedLayout(img: Image)
    ensures PackNv21(img).Success? ==>
      var ySize := Remaining(img.planes[0].buffer);
      |PackNv21(img).value| == ySize + ySize / 2 && PackNv21(img).value[..ySize] == Luma(img)
  {
    if PackNv21(img).Success? {
      var ySize := Remaining(img.planes[0].buffer);
      var n := Wrap(ySize + ySize / 2);
      var start := Progress(Rewind(img.planes[1].buffer), Rewind(img.planes[2].buffer),
                            InitialOut(img, n), ySize);
      var g := GeometryOf(img);
      RowsKeeps(start, g, g.rows);
      assert PackNv21(img).value == Rows(start, g, g.rows).value.out;
      assert n == ySize + ySize / 2;
      assert PackNv21(img).value[..ySize] == start.out[..ySize];
    }
  }

  /** Only plane 1's strides matter: plane 2's are never read. */
  lemma PlaneTwoStridesIgnored(img: Image, rowStride: Int32, pixelStride: Int32)
    requires |img.planes| >= 3
    ensures var other := img.(planes := img.planes[2 := img.planes[2].(rowStride := rowStride, pixelStride := pixelStride)]);
      PackNv21(other) == PackNv21(img)
  {
    var other := img.(planes := img.planes[2 := img.planes[2].(rowStride := rowStride, pixelStride := pixelStride)]);
    assert GeometryOf(other) == GeometryOf(img);
    assert Luma(other) == Luma(img);
  }
}
