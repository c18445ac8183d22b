/** The filtering step of `Filter`: cosine weighting of the projection, then, column by
    column, a zero-padded interleaved complex buffer, a forward transform, scaling of
    each bin by the kernel, an inverse transform, and the real parts read back. */
module ColumnFilter {
  import opened Grids
  import opened Numerics

  /** The buffer loaded for a column of `n` samples: `2 * n` complex bins holding
      sample i as the real part of bin i; every imaginary part, and every bin from `n`
      on, is zero. */
  function Pack(col: seq<real>): (buf: seq<real>)
    ensures |buf| == 4 * |col|
    ensures forall i :: 0 <= i < |col| ==> buf[2 * i] == col[i] && buf[2 * i + 1] == 0.0
    ensures forall t :: 2 * |col| <= t < |buf| ==> buf[t] == 0.0
  {
    seq(4 * |col|, t requires 0 <= t < 4 * |col| =>
      if t % 2 == 0 && t < 2 * |col| then col[t / 2] else 0.0)
  }

  /** A buffer that holds the column bin by bin, and zeros beyond, is the packed column. */
  lemma PackFromBins(buf: seq<real>, col: seq<real>)
    requires |buf| == 4 * |col|
    requires forall b :: 0 <= b < |col| ==> buf[2 * b] == col[b] && buf[2 * b + 1] == 0.0
    requires forall t :: 2 * |col| <= t < 4 * |col| ==> buf[t] == 0.0
    ensures buf == Pack(col)
  {
    var p := Pack(col);
    forall t | 0 <= t < 2 * |col| ensures buf[t] == p[t] {
      var b := t / 2;
      if t % 2 == 0 {
        assert t == 2 * b;
      } else {
        assert t == 2 * b + 1;
      }
    }
  }

  /** Both parts of complex bin i are multiplied by `g[i]`. */
  function Scale(buf: seq<real>, g: seq<real>): (out: seq<real>)
    requires |buf| == 2 * |g|
    ensures |out| == |buf|
    ensures forall i :: 0 <= i < |g| ==> out[2 * i] == buf[2 * i] * g[i] && out[2 * i + 1] == buf[2 * i + 1] * g[i]
  {
    seq(|buf|, t requires 0 <= t < |buf| => buf[t] * g[t / 2])
  }

  /** A buffer whose every bin is the kernel times the same bin of `buf` is the scaled buffer. */
  lemma ScaleFromBins(out: seq<real>, buf: seq<real>, g: seq<real>)
    requires |out| == |buf| == 2 * |g|
    requires forall b :: 0 <= b < |g| ==> out[2 * b] == buf[2 * b] * g[b] && out[2 * b + 1] == buf[2 * b + 1] * g[b]
    ensures out == Scale(buf, g)
  {
    var s := Scale(buf, g);
    forall t | 0 <= t < |buf| ensures out[t] == s[t] {
      var b := t / 2;
      if t % 2 == 0 {
        assert t == 2 * b;
      } else {
        assert t == 2 * b + 1;
      }
    }
  }

  /** The real parts of the first `n` bins. */
  function Unpack(buf: seq<real>, n: nat): (col: seq<real>)
    requires 2 * n <= |buf|
    ensures |col| == n
    ensures forall i :: 0 <= i < n ==> col[i] == buf[2 * i]
  {
    seq(n, i requires 0 <= i < n => buf[2 * i])
  }

  /** Reading back a packed column gives the column. */
  lemma UnpackPack(col: seq<real>)
    ensures Unpack(Pack(col), |col|) == col
  {
  }

  /** A kernel of ones leaves the buffer as it is. */
  lemma ScaleByOnes(buf: seq<real>, g: seq<real>)
    requires |buf| == 2 * |g|
    requires forall i :: 0 <= i < |g| ==> g[i] == 1.0
    ensures Scale(buf, g) == buf
  {
    forall b | 0 <= b < |g|
      ensures buf[2 * b] == buf[2 * b] * g[b] && buf[2 * b + 1] == buf[2 * b + 1] * g[b]
    {
      assert g[b] == 1.0;
    }
    ScaleFromBins(buf, buf, g);
  }

  /** The buffer after the forward transform, the kernel and the inverse transform. */
  function FilteredBuffer(fft: Fft, col: seq<real>, g: seq<real>): (buf: seq<real>)
    requires |g| == 2 * |col|
    ensures |buf| == 4 * |col|
  {
    fft(Scale(fft(Pack(col), 1), g), -1)
  }

  /** The filtered column: the real parts of the first `|col|` bins of that buffer. */
  function FilterColumn(fft: Fft, col: seq<real>, g: seq<real>): (out: seq<real>)
    requires |g| == 2 * |col|
    ensures |out| == |col|
  {
    Unpack(FilteredBuffer(fft, col, g), |col|)
  }

  /** With a unity kernel, and a transform whose inverse undoes it on the packed column,
      filtering returns the column unchanged. */
  lemma UnityKernelPassesColumn(fft: Fft, col: seq<real>, g: seq<real>)
    requires |g| == 2 * |col|
    requires forall i :: 0 <= i < |g| ==> g[i] == 1.0
    requires fft(fft(Pack(col), 1), -1) == Pack(col)
    ensures FilterColumn(fft, col, g) == col
  {
    ScaleByOnes(fft(Pack(col), 1), g);
    UnpackPack(col);
  }

  /** Every sample multiplied by its cosine weight. */
  function Weighted(p: Grid<real>, w: Grid<real>, rows: nat, cols: nat): (q: Grid<real>)
    requires IsGrid(p, rows, cols) && IsGrid(w, rows, cols)
    ensures IsGrid(q, rows, cols)
    ensures forall i, j :: 0 <= i < rows && 0 <= j < cols ==> q[i][j] == p[i][j] * w[i][j]
  {
    seq(rows, i requires 0 <= i < rows =>
      seq(cols, j requires 0 <= j < cols => p[i][j] * w[i][j]))
  }

  /** The projection after `Filter`: every column of the weighted projection filtered. */
  function FilterGrid(fft: Fft, p: Grid<real>, w: Grid<real>, g: seq<real>, rows: nat, cols: nat): (q: Grid<real>)
    requires IsGrid(p, rows, cols) && IsGrid(w, rows, cols) && |g| == 2 * rows
    ensures IsGrid(q, rows, cols)
    ensures forall i, j :: 0 <= i < rows && 0 <= j < cols ==>
      q[i][j] == FilterColumn(fft, Column(Weighted(p, w, rows, cols), j), g)[i]
  {
    var pw := Weighted(p, w, rows, cols);
    seq(rows, i requires 0 <= i < rows =>
      seq(cols, j requires 0 <= j < cols => FilterColumn(fft, Column(pw, j), g)[i]))
  }

  /** With a unity kernel and a transform that its inverse undoes, `Filter` only applies
      the cosine weighting. */
  lemma UnityKernelOnlyWeights(fft: Fft, p: Grid<real>, w: Grid<real>, g: seq<real>, rows: nat, cols: nat)
    requires IsGrid(p, rows, cols) && IsGrid(w, rows, cols) && |g| == 2 * rows
    requires forall i :: 0 <= i < |g| ==> g[i] == 1.0
    requires forall buf: seq<real> :: fft(fft(buf, 1), -1) == buf
    ensures FilterGrid(fft, p, w, g, rows, cols) == Weighted(p, w, rows, cols)
  {
    var pw := Weighted(p, w, rows, cols);
    forall j | 0 <= j < cols
      ensures FilterColumn(fft, Column(pw, j), g) == Column(pw, j)
    {
      UnityKernelPassesColumn(fft, Column(pw, j), g);
    }
    GridExt(FilterGrid(fft, p, w, g, rows, cols), pw, rows, cols);
  }
}
