/**
 * Reading the rendered image back (src/main.py:164-166). The render target
 * is copied into a byte buffer of `rows * cols * 4 * 3` bytes (three 4-byte
 * floats per pixel), read as float32 values, reshaped to a
 * `rows x cols x channels` grid and reversed along both image axes before
 * it is written out. The pixel values themselves come from the GPU and are
 * an input here.
 */
module Readback {
  import opened Float32

  /** The render resolution, `res = (1024, 1024)`. */
  const Rows: nat := 1024
  const Cols: nat := 1024

  /** Floats per pixel of the RGB float render target. */
  const Channels: nat := 3

  /** `bytearray(res[0] * res[1] * 4 * 3)`. */
  function CanvasSize(rows: nat, cols: nat): nat {
    rows * cols * 4 * Channels
  }

  /** `count` consecutive runs of `n` elements each, in order. */
  function Chunks<T>(s: seq<T>, count: nat, n: nat): (r: seq<seq<T>>)
    requires |s| == count * n
    ensures |r| == count
    ensures forall i :: 0 <= i < count ==> |r[i]| == n
  {
    if count == 0 then []
    else
      assert |s[n..]| == (count - 1) * n;
      [s[..n]] + Chunks(s[n..], count - 1, n)
  }

  /** Concatenation of the runs. */
  function Flatten<T>(g: seq<seq<T>>): seq<T> {
    if g == [] then [] else g[0] + Flatten(g[1..])
  }

  /** Element `i` of `Chunks` is the `i`-th run of `n` elements. */
  lemma {:induction false} ChunksAt<T>(s: seq<T>, count: nat, n: nat, i: nat)
    requires |s| == count * n && i < count
    ensures i * n + n <= |s|
    ensures Chunks(s, count, n)[i] == s[i * n..i * n + n]
  {
    assert |s[n..]| == (count - 1) * n;
    if i > 0 {
      ChunksAt(s[n..], count - 1, n, i - 1);
      assert (i - 1) * n + n == i * n;
      assert s[n..][(i - 1) * n..(i - 1) * n + n] == s[i * n..i * n + n];
    }
  }

  /** Cutting into runs loses nothing: putting the runs together gives the input back. */
  lemma {:induction false} FlattenChunks<T>(s: seq<T>, count: nat, n: nat)
    requires |s| == count * n
    ensures Flatten(Chunks(s, count, n)) == s
  {
    if count > 0 {
      assert (count - 1) * n == count * n - n;
      var r := Chunks(s, count, n);
      var rest := Chunks(s[n..], count - 1, n);
      assert r == [s[..n]] + rest;
      FlattenChunks(s[n..], count - 1, n);
      calc {
        Flatten(r);
        s[..n] + Flatten(rest);
        s[..n] + s[n..];
        s;
      }
    }
  }

  /** `reshape(res + (-1,))`: rows of pixels, each pixel its channel values. */
  function Reshape(vals: seq<F32>, rows: nat, cols: nat): (g: seq<seq<seq<F32>>>)
    requires |vals| == rows * cols * Channels
    ensures |g| == rows
    ensures forall r :: 0 <= r < rows ==> |g[r]| == cols
  {
    Chunks(Chunks(vals, rows * cols, Channels), rows, cols)
  }

  /** Pixel `(r, c)` of the reshaped grid is pixel `r * cols + c` of the flat buffer. */
  lemma ReshapeAt(vals: seq<F32>, rows: nat, cols: nat, r: nat, c: nat)
    requires |vals| == rows * cols * Channels && r < rows && c < cols
    ensures (r * cols + c) * Channels + Channels <= |vals|
    ensures Reshape(vals, rows, cols)[r][c] == vals[(r * cols + c) * Channels..(r * cols + c) * Channels + Channels]
  {
    var pixels := Chunks(vals, rows * cols, Channels);
    ChunksAt(pixels, rows, cols, r);
    assert r * cols + c < rows * cols by {
      assert r * cols + c < r * cols + cols == (r + 1) * cols <= rows * cols;
    }
    ChunksAt(vals, rows * cols, Channels, r * cols + c);
  }

  /** `s[::-1]`. */
  function Reverse<T>(s: seq<T>): (r: seq<T>)
    ensures |r| == |s|
    ensures forall i :: 0 <= i < |s| ==> r[i] == s[|s| - 1 - i]
  {
    seq(|s|, i requires 0 <= i < |s| => s[|s| - 1 - i])
  }

  /** `g[::-1, ::-1]`: the row order and, within every row, the column order reversed. */
  function Flip<T>(g: seq<seq<T>>): (f: seq<seq<T>>)
    ensures |f| == |g|
    ensures forall r :: 0 <= r < |g| ==> |f[r]| == |g[|g| - 1 - r]|
  {
    Reverse(seq(|g|, r requires 0 <= r < |g| => Reverse(g[r])))
  }

  /** Output pixel `(r, c)` is input pixel `(rows - 1 - r, cols - 1 - c)`. */
  lemma FlipAt<T>(g: seq<seq<T>>, r: nat, c: nat)
    requires r < |g| && c < |g[|g| - 1 - r]|
    ensures |Flip(g)[r]| == |g[|g| - 1 - r]|
    ensures Flip(g)[r][c] == g[|g| - 1 - r][|g[|g| - 1 - r]| - 1 - c]
  {
  }

  /** Reversing twice gives the input back. */
  lemma ReverseReverse<T>(s: seq<T>)
    ensures Reverse(Reverse(s)) == s
  {
  }

  /** Applying the reordering twice gives the original grid back. */
  lemma FlipFlip<T>(g: seq<seq<T>>)
    ensures Flip(Flip(g)) == g
  {
    forall r | 0 <= r < |g|
      ensures Flip(Flip(g))[r] == g[r]
    {
      ReverseReverse(g[r]);
    }
  }

  lemma ReverseAppend<T>(a: seq<T>, b: seq<T>)
    ensures Reverse(a + b) == Reverse(b) + Reverse(a)
  {
  }

  /**
   * Laid out row after row, the flipped grid is the original pixel order
   * reversed: `[::-1, ::-1]` of a row-major image reverses its pixel stream.
   */
  lemma {:induction false} FlattenFlip<T>(g: seq<seq<T>>)
    ensures Flatten(Flip(g)) == Reverse(Flatten(g))
  {
    if g != [] {
      var f := Flip(g);
      var last := |g| - 1;
      assert f[0] == Reverse(g[last]);
      assert f[1..] == Flip(g[..last]);
      FlattenFlip(g[..last]);
      FlattenSnoc(g[..last], g[last]);
      assert g == g[..last] + [g[last]];
      ReverseAppend(Flatten(g[..last]), g[last]);
    }
  }

  /** Flattening a grid with one more row appends that row. */
  lemma {:induction false} FlattenSnoc<T>(g: seq<seq<T>>, row: seq<T>)
    ensures Flatten(g + [row]) == Flatten(g) + row
  {
    if g != [] {
      assert (g + [row])[1..] == g[1..] + [row];
      FlattenSnoc(g[1..], row);
    }
  }

  /**
   * The image handed to the writer: the buffer read as floats, reshaped and
   * flipped on both axes.
   */
  function Canvas(buf: seq<Byte>, rows: nat, cols: nat): (img: seq<seq<seq<F32>>>)
    requires |buf| == CanvasSize(rows, cols)
    ensures |img| == rows
  {
    Flip(Reshape(DecodeAll(buf), rows, cols))
  }

  /**
   * Output pixel `(r, c)` of the written image is pixel
   * `(rows - 1 - r, cols - 1 - c)` of the buffer read as floats and
   * reshaped; by `ReshapeAt` that is the run of floats starting at float
   * `((rows - 1 - r) * cols + (cols - 1 - c)) * 3` of the buffer.
   */
  lemma CanvasAt(buf: seq<Byte>, rows: nat, cols: nat, r: nat, c: nat)
    requires |buf| == CanvasSize(rows, cols) && r < rows && c < cols
    ensures |Canvas(buf, rows, cols)[r]| == cols
    ensures Canvas(buf, rows, cols)[r][c] == Reshape(DecodeAll(buf), rows, cols)[rows - 1 - r][cols - 1 - c]
  {
    FlipAt(Reshape(DecodeAll(buf), rows, cols), r, c);
  }

  /**
   * The `-1` of `reshape(res + (-1,))` resolves to the three channels: a
   * buffer of `CanvasSize(rows, cols)` bytes holds `rows * cols * 3` floats,
   * and every pixel of the written image has exactly three of them.
   */
  lemma CanvasFloats(buf: seq<Byte>, rows: nat, cols: nat, r: nat, c: nat)
    requires |buf| == CanvasSize(rows, cols) && r < rows && c < cols
    ensures |buf| % 4 == 0 && |DecodeAll(buf)| == rows * cols * Channels
    ensures |Canvas(buf, rows, cols)[r]| == cols
    ensures |Canvas(buf, rows, cols)[r][c]| == Channels
  {
    CanvasAt(buf, rows, cols, r, c);
    ReshapeAt(DecodeAll(buf), rows, cols, rows - 1 - r, cols - 1 - c);
  }

  /** The image the program writes: the canvas at its resolution `res`. */
  function OutputImage(buf: seq<Byte>): (img: seq<seq<seq<F32>>>)
    requires |buf| == CanvasSize(Rows, Cols)
    ensures |img| == Rows
    ensures forall r :: 0 <= r < Rows ==> |img[r]| == Cols
  {
    Canvas(buf, Rows, Cols)
  }
}
