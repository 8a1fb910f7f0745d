/** The byte sequence the chroma loop writes, independent of buffers and
    cursors: row after row of U/V pairs read from consecutive positions, each
    row starting a fixed number of positions after the previous one; and
    where pair `c` of row `r` lands in it. */
module ChromaRowBytes {
  import opened Java

  /** `n * a` by repeated addition, so that the proofs about the loop stay in
      linear arithmetic; `TimesIsProduct` connects it to `*`. */
  function Times(n: nat, a: nat): nat
  {
    if n == 0 then 0 else a + Times(n - 1, a)
  }

  lemma {:induction false} TimesIsProduct(n: nat, a: nat)
    ensures Times(n, a) == n * a
  {
    if n > 0 {
      TimesIsProduct(n - 1, a);
    }
  }

  /** The bytes one chroma row writes: U then V for each of `n` consecutive
      cursor positions from `pos` on. */
  function RowPairs(u: seq<byte>, v: seq<byte>, pos: nat, n: nat): (r: seq<byte>)
    requires pos + n <= |u| && pos + n <= |v|
    ensures |r| == 2 * n
    decreases n
  {
    if n == 0 then [] else [u[pos], v[pos]] + RowPairs(u, v, pos + 1, n - 1)
  }

  /** The bytes `rows` chroma rows write, each row starting `advance` cursor
      positions after the previous one. */
  function ChromaRows(u: seq<byte>, v: seq<byte>, pos: nat, rows: nat, halfWidth: nat, advance: nat)
    : (r: seq<byte>)
    requires halfWidth <= advance
    requires pos + Times(rows, advance) <= |u| && pos + Times(rows, advance) <= |v|
    ensures |r| == 2 * Times(rows, halfWidth)
    decreases rows
  {
    if rows == 0 then []
    else
      RowPairs(u, v, pos, halfWidth) + ChromaRows(u, v, pos + advance, rows - 1, halfWidth, advance)
  }

  /** Pair `c` of a row is the U and the V byte at cursor `pos + c`. */
  lemma {:induction false} RowPairsAt(u: seq<byte>, v: seq<byte>, pos: nat, n: nat, c: nat)
    requires pos + n <= |u| && pos + n <= |v| && c < n
    ensures RowPairs(u, v, pos, n)[2 * c] == u[pos + c]
    ensures RowPairs(u, v, pos, n)[2 * c + 1] == v[pos + c]
    decreases n
  {
    if c > 0 {
      RowPairsAt(u, v, pos + 1, n - 1, c - 1);
    }
  }

  /** Row `r < rows`, column `c < halfWidth` lies inside `rows` rows, both in
      cursor positions and in written bytes. */
  lemma {:induction false} TimesBelow(rows: nat, halfWidth: nat, advance: nat, r: nat, c: nat)
    requires halfWidth <= advance && r < rows && c < halfWidth
    ensures Times(r, advance) + c < Times(rows, advance)
    ensures Times(r, halfWidth) + c < Times(rows, halfWidth)
    decreases rows
  {
    if r < rows - 1 {
      TimesBelow(rows - 1, halfWidth, advance, r, c);
    }
  }

  /** Pair `c` of row `r` lies at `i = 2 * (r * halfWidth + c)` and holds the
      U and the V byte at cursor `at = pos + r * advance + c`. */
  lemma {:induction false} ChromaRowsAt(u: seq<byte>, v: seq<byte>, pos: nat, rows: nat,
                                         halfWidth: nat, advance: nat, r: nat, c: nat, i: nat, at: nat)
    requires halfWidth <= advance
    requires pos + Times(rows, advance) <= |u| && pos + Times(rows, advance) <= |v|
    requires r < rows && c < halfWidth
    requires i == 2 * (Times(r, halfWidth) + c) && at == pos + Times(r, advance) + c
    ensures at < |u| && at < |v| && i + 1 < 2 * Times(rows, halfWidth)
    ensures ChromaRows(u, v, pos, rows, halfWidth, advance)[i] == u[at]
    ensures ChromaRows(u, v, pos, rows, halfWidth, advance)[i + 1] == v[at]
    decreases rows, 1
  {
    TimesBelow(rows, halfWidth, advance, r, c);
    if r == 0 {
      ChromaRowsHead(u, v, pos, rows, halfWidth, advance, c, i, at);
    } else {
      var j := i - 2 * halfWidth;
      ShiftRow(pos, rows, halfWidth, advance, r, c, i, at, j);
      ChromaRowsLater(u, v, pos, rows, halfWidth, advance, r, c, i, j, at);
    }
  }

  /** Pair `c` of row `r > 0` is pair `c` of row `r - 1` once the first row,
      `2 * halfWidth` bytes and `advance` cursor positions, is dropped. */
  lemma ShiftRow(pos: nat, rows: nat, halfWidth: nat, advance: nat, r: nat, c: nat, i: nat, at: nat, j: int)
    requires 0 < r < rows && i == 2 * (Times(r, halfWidth) + c) && at == pos + Times(r, advance) + c
    requires j == i - 2 * halfWidth
    ensures j == 2 * (Times(r - 1, halfWidth) + c)
    ensures at == pos + advance + Times(r - 1, advance) + c
    ensures pos + Times(rows, advance) == pos + advance + Times(rows - 1, advance)
  {
  }

  /** The induction step of `ChromaRowsAt`: a pair in a later row is the pair
      one row earlier among the rows after the first. */
  lemma {:induction false} ChromaRowsLater(u: seq<byte>, v: seq<byte>, pos: nat, rows: nat,
                                            halfWidth: nat, advance: nat, r: nat, c: nat,
                                            i: nat, j: nat, at: nat)
    requires halfWidth <= advance
    requires pos + Times(rows, advance) <= |u| && pos + Times(rows, advance) <= |v|
    requires 0 < r < rows && c < halfWidth
    requires pos + advance + Times(rows - 1, advance) <= |u|
    requires pos + advance + Times(rows - 1, advance) <= |v|
    requires j == 2 * (Times(r - 1, halfWidth) + c) && at == pos + advance + Times(r - 1, advance) + c
    requires i == 2 * halfWidth + j && at < |u| && at < |v|
    ensures i + 1 < 2 * Times(rows, halfWidth)
    ensures ChromaRows(u, v, pos, rows, halfWidth, advance)[i] == u[at]
    ensures ChromaRows(u, v, pos, rows, halfWidth, advance)[i + 1] == v[at]
    decreases rows, 0
  {
    ChromaRowsAt(u, v, pos + advance, rows - 1, halfWidth, advance, r - 1, c, j, at);
    var rest := ChromaRows(u, v, pos + advance, rows - 1, halfWidth, advance);
    ChromaRowsTail(u, v, pos, rows, halfWidth, advance, j, i);
    ChromaRowsTail(u, v, pos, rows, halfWidth, advance, j + 1, i + 1);
    var whole := ChromaRows(u, v, pos, rows, halfWidth, advance);
    assert whole[i] == rest[j];
    assert whole[i + 1] == rest[j + 1];
  }

  /** The first row's pairs come first. */
  lemma ChromaRowsHead(u: seq<byte>, v: seq<byte>, pos: nat, rows: nat,
                       halfWidth: nat, advance: nat, c: nat, i: nat, at: nat)
    requires halfWidth <= advance
    requires pos + Times(rows, advance) <= |u| && pos + Times(rows, advance) <= |v|
    requires 0 < rows && c < halfWidth && i == 2 * c && at == pos + c
    ensures i + 1 < 2 * Times(rows, halfWidth) && at < |u| && at < |v|
    ensures ChromaRows(u, v, pos, rows, halfWidth, advance)[i] == u[at]
    ensures ChromaRows(u, v, pos, rows, halfWidth, advance)[i + 1] == v[at]
  {
    var row := RowPairs(u, v, pos, halfWidth);
    var rest := ChromaRows(u, v, pos + advance, rows - 1, halfWidth, advance);
    assert ChromaRows(u, v, pos, rows, halfWidth, advance) == row + rest;
    RowPairsAt(u, v, pos, halfWidth, c);
  }

  /** After the first row's `2 * halfWidth` bytes come the later rows'. */
  lemma ChromaRowsTail(u: seq<byte>, v: seq<byte>, pos: nat, rows: nat,
                       halfWidth: nat, advance: nat, j: nat, k: nat)
    requires halfWidth <= advance
    requires pos + Times(rows, advance) <= |u| && pos + Times(rows, advance) <= |v|
    requires 0 < rows && j < 2 * Times(rows - 1, halfWidth) && k == 2 * halfWidth + j
    ensures pos + advance + Times(rows - 1, advance) <= |u|
    ensures pos + advance + Times(rows - 1, advance) <= |v|
    ensures k < 2 * Times(rows, halfWidth)
    ensures ChromaRows(u, v, pos, rows, halfWidth, advance)[k]
         == ChromaRows(u, v, pos + advance, rows - 1, halfWidth, advance)[j]
  {
    var row := RowPairs(u, v, pos, halfWidth);
    var rest := ChromaRows(u, v, pos + advance, rows - 1, halfWidth, advance);
    assert ChromaRows(u, v, pos, rows, halfWidth, advance) == row + rest;
  }
}
