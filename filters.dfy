/**
 * The image filters of src/filters.cpp on 3-channel images: the separable
 * 3x3 Sobel passes writing a 16-bit 3-channel buffer, and the gradient
 * magnitude writing an 8-bit 3-channel buffer. Source pixels come as a
 * grid of BGR bytes; the `Mat` buffers that the filters create are
 * `array3`s of shape rows x cols x 3 supplied by the caller (`create` on a
 * buffer of that size and type keeps the buffer and its contents).
 */
module Filters {
  import opened Pixels

  /* ---------------- Buffers and 16-bit values ---------------- */

  /** A buffer of the same size as a rows x cols image, three channels per cell. */
  predicate Shaped<T>(a: array3<T>, rows: int, cols: int)
  {
    a.Length0 == rows && a.Length1 == cols && a.Length2 == 3
  }

  predicate IsShort(x: int)
  {
    -32768 <= x < 32768
  }

  /** Assignment to `short`: the value modulo 2^16, read back as a signed number. */
  function ToShort(x: int): (s: int)
    ensures IsShort(s)
  {
    (x + 32768) % 65536 - 32768
  }

  lemma ToShortOfShort(x: int)
    requires IsShort(x)
    ensures ToShort(x) == x
  {
  }

  /** Cell (i, j, c) of a rows x cols x 3 buffer. */
  predicate Cell(i: int, j: int, c: int, rows: int, cols: int)
  {
    0 <= i < rows && 0 <= j < cols && 0 <= c < 3
  }

  /** The cells of row `i` a row pass has written once it reaches (j, c), starting at column `lo`. */
  predicate Written(a: int, b: int, d: int, i: int, lo: int, j: int, c: int)
  {
    a == i && (lo <= b < j || (b == j && d < c))
  }

  /** Cells with a full 3x3 neighbourhood: the ones the vertical passes write. */
  predicate Interior(i: int, j: int, rows: int, cols: int)
  {
    1 <= i < rows - 1 && 1 <= j < cols - 1
  }

  /** `src.at<Vec3b>(i, j)[c]` for a cell inside the image. */
  function At(src: seq<seq<Pixel>>, cols: nat, i: int, j: int, c: int): int
    requires IsGrid(src, cols) && Cell(i, j, c, |src|, cols)
  {
    Channel(src[i][j], c) as int
  }

  /* ---------------- The 3x3 kernels ---------------- */

  /** Sum of kernel[a][b] * src(i - 1 + a, j - 1 + b, c) over the 3x3 neighbourhood. */
  function Convolve3x3(src: seq<seq<Pixel>>, cols: nat, kernel: seq<seq<int>>, i: int, j: int, c: int): int
    requires IsGrid(src, cols) && Interior(i, j, |src|, cols) && 0 <= c < 3
    requires |kernel| == 3 && forall a :: 0 <= a < 3 ==> |kernel[a]| == 3
  {
    kernel[0][0] * At(src, cols, i - 1, j - 1, c) + kernel[0][1] * At(src, cols, i - 1, j, c)
      + kernel[0][2] * At(src, cols, i - 1, j + 1, c)
    + kernel[1][0] * At(src, cols, i, j - 1, c) + kernel[1][1] * At(src, cols, i, j, c)
      + kernel[1][2] * At(src, cols, i, j + 1, c)
    + kernel[2][0] * At(src, cols, i + 1, j - 1, c) + kernel[2][1] * At(src, cols, i + 1, j, c)
      + kernel[2][2] * At(src, cols, i + 1, j + 1, c)
  }

  const SobelXKernel: seq<seq<int>> := [[-1, 0, 1], [-2, 0, 2], [-1, 0, 1]]
  const SobelYKernel: seq<seq<int>> := [[-1, -2, -1], [0, 0, 0], [1, 2, 1]]

  /* ---------------- sobelX3x3 ---------------- */

  /** The horizontal pass: `src(i, j+1, c) - src(i, j-1, c)`. */
  function DiffX(src: seq<seq<Pixel>>, cols: nat, i: int, j: int, c: int): int
    requires IsGrid(src, cols) && 0 <= i < |src| && 1 <= j < cols - 1 && 0 <= c < 3
  {
    At(src, cols, i, j + 1, c) - At(src, cols, i, j - 1, c)
  }

  /** The vertical pass over the horizontal one: rows weighted 1, 2, 1. */
  function SobelXAt(src: seq<seq<Pixel>>, cols: nat, i: int, j: int, c: int): int
    requires IsGrid(src, cols) && Interior(i, j, |src|, cols) && 0 <= c < 3
  {
    DiffX(src, cols, i - 1, j, c) + 2 * DiffX(src, cols, i, j, c) + DiffX(src, cols, i + 1, j, c)
  }

  /** The two passes together apply the 3x3 Sobel X kernel. */
  lemma SobelXIsKernel(src: seq<seq<Pixel>>, cols: nat, i: int, j: int, c: int)
    requires IsGrid(src, cols) && Interior(i, j, |src|, cols) && 0 <= c < 3
    ensures SobelXAt(src, cols, i, j, c) == Convolve3x3(src, cols, SobelXKernel, i, j, c)
  {
  }

  /** With byte inputs every output lies in [-1020, 1020], so the `short` stores never wrap. */
  lemma SobelXBound(src: seq<seq<Pixel>>, cols: nat, i: int, j: int, c: int)
    requires IsGrid(src, cols) && Interior(i, j, |src|, cols) && 0 <= c < 3
    ensures -1020 <= SobelXAt(src, cols, i, j, c) <= 1020
    ensures IsShort(DiffX(src, cols, i, j, c))
    ensures ToShort(SobelXAt(src, cols, i, j, c)) == SobelXAt(src, cols, i, j, c)
  {
  }

  /** Horizontal pass of `sobelX3x3` on row `i`: columns 1 to cols-2 of `temp`. */
  method DiffRowX(src: seq<seq<Pixel>>, cols: nat, i: int, temp: array3<int>)
    requires IsGrid(src, cols) && 0 <= i < |src| && Shaped(temp, |src|, cols)
    modifies temp
    ensures forall j, c :: 1 <= j < cols - 1 && 0 <= c < 3 ==> temp[i, j, c] == DiffX(src, cols, i, j, c)
    ensures forall a, b, c :: Cell(a, b, c, |src|, cols) && !(a == i && 1 <= b < cols - 1)
                ==> temp[a, b, c] == old(temp[a, b, c])
  {
    var j := 1;
    while j < cols - 1
      invariant 1 <= j && (j <= cols - 1 || j == 1)
      invariant forall b, c :: 1 <= b < j && 0 <= c < 3 ==> temp[i, b, c] == DiffX(src, cols, i, b, c)
      invariant forall a, b, c :: Cell(a, b, c, |src|, cols) && !Written(a, b, c, i, 1, j, 0)
                    ==> temp[a, b, c] == old(temp[a, b, c])
    {
      var c := 0;
      while c < 3
        invariant 0 <= c <= 3
        invariant forall b, d :: 1 <= b < j && 0 <= d < 3 ==> temp[i, b, d] == DiffX(src, cols, i, b, d)
        invariant forall d :: 0 <= d < c ==> temp[i, j, d] == DiffX(src, cols, i, j, d)
        invariant forall a, b, d :: Cell(a, b, d, |src|, cols) && !Written(a, b, d, i, 1, j, c)
                      ==> temp[a, b, d] == old(temp[a, b, d])
      {
        var sum := ToShort(-1 * At(src, cols, i, j - 1, c) + 1 * At(src, cols, i, j + 1, c));
        temp[i, j, c] := sum;
        c := c + 1;
      }
      j := j + 1;
    }
  }

  /** Vertical pass of `sobelX3x3` on interior row `i`. */
  method WeightRowX(temp: array3<int>, i: int, dst: array3<int>)
    requires temp != dst && Shaped(dst, temp.Length0, temp.Length1) && temp.Length2 == 3
    requires 1 <= i < temp.Length0 - 1
    modifies dst
    ensures forall j, c :: 1 <= j < dst.Length1 - 1 && 0 <= c < 3
                ==> dst[i, j, c] == ToShort(temp[i - 1, j, c] + 2 * temp[i, j, c] + temp[i + 1, j, c])
    ensures forall a, b, c :: Cell(a, b, c, dst.Length0, dst.Length1) && !(a == i && 1 <= b < dst.Length1 - 1)
                ==> dst[a, b, c] == old(dst[a, b, c])
  {
    var cols := dst.Length1;
    var j := 1;
    while j < cols - 1
      invariant 1 <= j && (j <= cols - 1 || j == 1)
      invariant forall b, c :: 1 <= b < j && 0 <= c < 3
                    ==> dst[i, b, c] == ToShort(temp[i - 1, b, c] + 2 * temp[i, b, c] + temp[i + 1, b, c])
      invariant forall a, b, c :: Cell(a, b, c, dst.Length0, cols) && !Written(a, b, c, i, 1, j, 0)
                    ==> dst[a, b, c] == old(dst[a, b, c])
    {
      var c := 0;
      while c < 3
        invariant 0 <= c <= 3
        invariant forall b, d :: 1 <= b < j && 0 <= d < 3
                      ==> dst[i, b, d] == ToShort(temp[i - 1, b, d] + 2 * temp[i, b, d] + temp[i + 1, b, d])
        invariant forall d :: 0 <= d < c
                      ==> dst[i, j, d] == ToShort(temp[i - 1, j, d] + 2 * temp[i, j, d] + temp[i + 1, j, d])
        invariant forall a, b, d :: Cell(a, b, d, dst.Length0, cols) && !Written(a, b, d, i, 1, j, c)
                      ==> dst[a, b, d] == old(dst[a, b, d])
      {
        var sum := ToShort(1 * temp[i - 1, j, c] + 2 * temp[i, j, c] + 1 * temp[i + 1, j, c]);
        dst[i, j, c] := sum;
        c := c + 1;
      }
      j := j + 1;
    }
  }

  /**
   * `sobelX3x3`: -1 on an empty image with `dst` untouched; otherwise every
   * interior cell of `dst` gets the Sobel X response and the border cells
   * are left as they were.
   */
  method SobelX3x3(src: seq<seq<Pixel>>, cols: nat, dst: array3<int>) returns (status: int)
    requires IsGrid(src, cols) && Shaped(dst, |src|, cols)
    modifies dst
    ensures status == -1 <==> Empty(src, cols)
    ensures status == -1 ==> unchanged(dst)
    ensures status != -1 ==> status == 0
    ensures forall i, j, c :: Cell(i, j, c, |src|, cols)
                ==> dst[i, j, c] == if Interior(i, j, |src|, cols)
                    then SobelXAt(src, cols, i, j, c)
                    else old(dst[i, j, c])
  {
    if Empty(src, cols) {
      return -1;
    }
    var rows := |src|;
    var temp := new int[rows, cols, 3];
    var i := 0;
    while i < rows
      invariant 0 <= i <= rows
      invariant forall a, b, c :: 0 <= a < i && 1 <= b < cols - 1 && 0 <= c < 3
                    ==> temp[a, b, c] == DiffX(src, cols, a, b, c)
      invariant unchanged(dst)
    {
      DiffRowX(src, cols, i, temp);
      i := i + 1;
    }
    i := 1;
    while i < rows - 1
      invariant 1 <= i && (i <= rows - 1 || i == 1)
      invariant forall a, b, c :: 1 <= a < i && 1 <= b < cols - 1 && 0 <= c < 3
                    ==> dst[a, b, c] == SobelXAt(src, cols, a, b, c)
      invariant forall a, b, c :: 0 <= a < rows && 1 <= b < cols - 1 && 0 <= c < 3
                    ==> temp[a, b, c] == DiffX(src, cols, a, b, c)
      invariant forall a, b, c :: Cell(a, b, c, rows, cols) && !(1 <= a < i && 1 <= b < cols - 1)
                    ==> dst[a, b, c] == old(dst[a, b, c])
    {
      WeightRowX(temp, i, dst);
      forall b, c | 1 <= b < cols - 1 && 0 <= c < 3
        ensures dst[i, b, c] == SobelXAt(src, cols, i, b, c)
      {
        SobelXBound(src, cols, i, b, c);
      }
      i := i + 1;
    }
    status := 0;
  }

  /* ---------------- sobelY3x3 ---------------- */

  /**
   * `src.at<Vec3b>(i, j)[c]` for a column from -1 to cols. A `Mat`'s rows
   * are contiguous, so column -1 of row i is the last pixel of row i - 1
   * and column cols is the first pixel of row i + 1.
   */
  function ContiguousAt(src: seq<seq<Pixel>>, cols: nat, i: int, j: int, c: int): int
    requires IsGrid(src, cols) && 0 < cols && 0 <= i < |src| && -1 <= j <= cols && 0 <= c < 3
    requires j == -1 ==> 1 <= i
    requires j == cols ==> i + 1 < |src|
  {
    if j == -1 then At(src, cols, i - 1, cols - 1, c)
    else if j == cols then At(src, cols, i + 1, 0, c)
    else At(src, cols, i, j, c)
  }

  /** The horizontal pass of `sobelY3x3` at any column: `src(i, j-1) + 2 src(i, j) + src(i, j+1)`. */
  function SmoothY(src: seq<seq<Pixel>>, cols: nat, i: int, j: int, c: int): int
    requires IsGrid(src, cols) && 0 <= j < cols && 0 <= c < 3
    requires (j == 0 || j == cols - 1) ==> 1 <= i < |src| - 1
    requires 0 <= i < |src|
  {
    ContiguousAt(src, cols, i, j - 1, c) + 2 * At(src, cols, i, j, c) + ContiguousAt(src, cols, i, j + 1, c)
  }

  /** Away from the first and last column the horizontal pass stays inside the row. */
  lemma SmoothYInRow(src: seq<seq<Pixel>>, cols: nat, i: int, j: int, c: int)
    requires IsGrid(src, cols) && 0 <= i < |src| && 1 <= j < cols - 1 && 0 <= c < 3
    ensures SmoothY(src, cols, i, j, c)
         == At(src, cols, i, j - 1, c) + 2 * At(src, cols, i, j, c) + At(src, cols, i, j + 1, c)
    ensures 0 <= SmoothY(src, cols, i, j, c) <= 1020
  {
  }

  /**
   * The intended Sobel Y response: the smoothed row below minus the
   * smoothed row above.
   */
  function SobelYAt(src: seq<seq<Pixel>>, cols: nat, i: int, j: int, c: int): int
    requires IsGrid(src, cols) && Interior(i, j, |src|, cols) && 0 <= c < 3
  {
    SmoothY(src, cols, i + 1, j, c) - SmoothY(src, cols, i - 1, j, c)
  }

  lemma SobelYIsKernel(src: seq<seq<Pixel>>, cols: nat, i: int, j: int, c: int)
    requires IsGrid(src, cols) && Interior(i, j, |src|, cols) && 0 <= c < 3
    ensures SobelYAt(src, cols, i, j, c) == Convolve3x3(src, cols, SobelYKernel, i, j, c)
    ensures -1020 <= SobelYAt(src, cols, i, j, c) <= 1020
  {
    SmoothYInRow(src, cols, i - 1, j, c);
    SmoothYInRow(src, cols, i + 1, j, c);
  }

  /** `src` with rows and columns exchanged. */
  function Transpose(src: seq<seq<Pixel>>, cols: nat): (t: seq<seq<Pixel>>)
    requires IsGrid(src, cols)
    ensures |t| == cols && IsGrid(t, |src|)
  {
    seq(cols, j requires 0 <= j < cols => seq(|src|, i requires 0 <= i < |src| => src[i][j]))
  }

  /** The Y filter is the X filter applied to the transposed image. */
  lemma SobelYIsTransposedX(src: seq<seq<Pixel>>, cols: nat, i: int, j: int, c: int)
    requires IsGrid(src, cols) && Interior(i, j, |src|, cols) && 0 <= c < 3
    ensures Interior(j, i, cols, |src|)
    ensures SobelYAt(src, cols, i, j, c) == SobelXAt(Transpose(src, cols), |src|, j, i, c)
  {
    SmoothYInRow(src, cols, i - 1, j, c);
    SmoothYInRow(src, cols, i + 1, j, c);
  }

  /**
   * `dst(i, j)` as `sobelY3x3` computes it: `temp(i+1, j) - temp(i-1, j)`,
   * where the horizontal pass wrote `temp` only on rows 1 to rows-2.
   * `top` and `bottom` are what `temp` rows 0 and rows-1 held before the
   * call (`top[j][c]` is cell (0, j, c)).
   */
  function SobelYAsWritten(src: seq<seq<Pixel>>, cols: nat, top: seq<seq<int>>, bottom: seq<seq<int>>,
                           i: int, j: int, c: int): int
    requires IsGrid(src, cols) && Interior(i, j, |src|, cols) && 0 <= c < 3
    requires IsGrid(top, 3) && IsGrid(bottom, 3) && |top| == cols && |bottom| == cols
  {
    var above := if i - 1 == 0 then top[j][c] else SmoothY(src, cols, i - 1, j, c);
    var below := if i + 1 == |src| - 1 then bottom[j][c] else SmoothY(src, cols, i + 1, j, c);
    ToShort(-1 * above + 1 * below)
  }

  /** Away from rows 1 and rows-2 the output as written is the intended Sobel Y response. */
  lemma SobelYAsWrittenAwayFromEdges(src: seq<seq<Pixel>>, cols: nat, top: seq<seq<int>>, bottom: seq<seq<int>>,
                                     i: int, j: int, c: int)
    requires IsGrid(src, cols) && Interior(i, j, |src|, cols) && 0 <= c < 3
    requires IsGrid(top, 3) && IsGrid(bottom, 3) && |top| == cols && |bottom| == cols
    requires 2 <= i < |src| - 2
    ensures SobelYAsWritten(src, cols, top, bottom, i, j, c) == SobelYAt(src, cols, i, j, c)
  {
    SobelYIsKernel(src, cols, i, j, c);
  }

  /**
   * Row 1 of the output depends on what `temp` row 0 held before the call:
   * two scratch buffers differing in one never-written cell give two
   * different responses on the same image.
   */
  lemma SobelYReadsUnwrittenRow(src: seq<seq<Pixel>>, cols: nat, bottom: seq<seq<int>>)
    requires IsGrid(src, cols) && 4 <= |src| && 3 <= cols
    requires IsGrid(bottom, 3) && |bottom| == cols
    ensures var zeros := seq(cols, j => [0, 0, 0]);
            var ones := zeros[1 := [1, 0, 0]];
            SobelYAsWritten(src, cols, zeros, bottom, 1, 1, 0) != SobelYAsWritten(src, cols, ones, bottom, 1, 1, 0)
  {
    SmoothYInRow(src, cols, 2, 1, 0);
    var below := SmoothY(src, cols, 2, 1, 0);
    ToShortOfShort(below);
    ToShortOfShort(below - 1);
  }

  /** The rows `top` and `bottom` of a buffer: row `k` as cols cells of three channels. */
  function RowOf(a: array3<int>, k: int): (r: seq<seq<int>>)
    requires 0 <= k < a.Length0 && a.Length2 == 3
    reads a
    ensures |r| == a.Length1 && IsGrid(r, 3)
  {
    seq(a.Length1, j requires 0 <= j < a.Length1 reads a => [a[k, j, 0], a[k, j, 1], a[k, j, 2]])
  }

  /** Horizontal pass of `sobelY3x3` on row `i`, columns `lo` to `hi - 1`. */
  method SmoothRowY(src: seq<seq<Pixel>>, cols: nat, i: int, lo: int, hi: int, temp: array3<int>)
    requires IsGrid(src, cols) && 0 <= i < |src| && Shaped(temp, |src|, cols)
    requires 0 <= lo && hi <= cols
    requires lo == 0 || hi == cols ==> 1 <= i < |src| - 1
    modifies temp
    ensures forall j, c :: lo <= j < hi && 0 <= c < 3 ==> temp[i, j, c] == SmoothY(src, cols, i, j, c)
    ensures forall a, b, c :: Cell(a, b, c, |src|, cols) && !(a == i && lo <= b < hi)
                ==> temp[a, b, c] == old(temp[a, b, c])
  {
    var j := lo;
    while j < hi
      invariant lo <= j && (j <= hi || j == lo)
      invariant forall b, c :: lo <= b < j && 0 <= c < 3 ==> temp[i, b, c] == SmoothY(src, cols, i, b, c)
      invariant forall a, b, c :: Cell(a, b, c, |src|, cols) && !Written(a, b, c, i, lo, j, 0)
                    ==> temp[a, b, c] == old(temp[a, b, c])
    {
      SmoothCellY(src, cols, i, j, temp);
      j := j + 1;
    }
  }

  /** The channel loop of `sobelY3x3`'s horizontal pass at cell (i, j). */
  method SmoothCellY(src: seq<seq<Pixel>>, cols: nat, i: int, j: int, temp: array3<int>)
    requires IsGrid(src, cols) && 0 <= i < |src| && 0 <= j < cols && Shaped(temp, |src|, cols)
    requires (j == 0 || j == cols - 1) ==> 1 <= i < |src| - 1
    modifies temp
    ensures forall c :: 0 <= c < 3 ==> temp[i, j, c] == SmoothY(src, cols, i, j, c)
    ensures forall a, b, c :: Cell(a, b, c, |src|, cols) && !(a == i && b == j)
                ==> temp[a, b, c] == old(temp[a, b, c])
  {
    var c := 0;
    while c < 3
      invariant 0 <= c <= 3
      invariant forall d :: 0 <= d < c ==> temp[i, j, d] == SmoothY(src, cols, i, j, d)
      invariant forall a, b, d :: Cell(a, b, d, |src|, cols) && !(a == i && b == j && d < c)
                    ==> temp[a, b, d] == old(temp[a, b, d])
    {
      var sum := 1 * ContiguousAt(src, cols, i, j - 1, c) + 2 * At(src, cols, i, j, c)
               + 1 * ContiguousAt(src, cols, i, j + 1, c);
      temp[i, j, c] := ToShort(sum);
      c := c + 1;
    }
  }

  /** Vertical pass of `sobelY3x3` on interior row `i`. */
  method DiffRowY(temp: array3<int>, i: int, dst: array3<int>)
    requires temp != dst && Shaped(dst, temp.Length0, temp.Length1) && temp.Length2 == 3
    requires 1 <= i < temp.Length0 - 1
    modifies dst
    ensures forall j, c :: 1 <= j < dst.Length1 - 1 && 0 <= c < 3
                ==> dst[i, j, c] == ToShort(-1 * temp[i - 1, j, c] + 1 * temp[i + 1, j, c])
    ensures forall a, b, c :: Cell(a, b, c, dst.Length0, dst.Length1) && !(a == i && 1 <= b < dst.Length1 - 1)
                ==> dst[a, b, c] == old(dst[a, b, c])
  {
    var cols := dst.Length1;
    var j := 1;
    while j < cols - 1
      invariant 1 <= j && (j <= cols - 1 || j == 1)
      invariant forall b, c :: 1 <= b < j && 0 <= c < 3
                    ==> dst[i, b, c] == ToShort(-1 * temp[i - 1, b, c] + 1 * temp[i + 1, b, c])
      invariant forall a, b, c :: Cell(a, b, c, dst.Length0, cols) && !Written(a, b, c, i, 1, j, 0)
                    ==> dst[a, b, c] == old(dst[a, b, c])
    {
      var c := 0;
      while c < 3
        invariant 0 <= c <= 3
        invariant forall b, d :: 1 <= b < j && 0 <= d < 3
                      ==> dst[i, b, d] == ToShort(-1 * temp[i - 1, b, d] + 1 * temp[i + 1, b, d])
        invariant forall d :: 0 <= d < c
                      ==> dst[i, j, d] == ToShort(-1 * temp[i - 1, j, d] + 1 * temp[i + 1, j, d])
        invariant forall a, b, d :: Cell(a, b, d, dst.Length0, cols) && !Written(a, b, d, i, 1, j, c)
                      ==> dst[a, b, d] == old(dst[a, b, d])
      {
        dst[i, j, c] := ToShort(-1 * temp[i - 1, j, c] + 1 * temp[i + 1, j, c]);
        c := c + 1;
      }
      j := j + 1;
    }
  }

  /**
   * The vertical pass over rows 1 to rows-2 (shared by both versions of
   * `sobelY3x3`): interior cells of `dst` get `temp(i+1) - temp(i-1)`, the
   * border is left alone.
   */
  method DiffRowsY(temp: array3<int>, dst: array3<int>)
    requires temp != dst && Shaped(dst, temp.Length0, temp.Length1) && temp.Length2 == 3
    modifies dst
    ensures forall i, j, c :: Cell(i, j, c, dst.Length0, dst.Length1)
                ==> dst[i, j, c] == if Interior(i, j, dst.Length0, dst.Length1)
                    then ToShort(-1 * temp[i - 1, j, c] + 1 * temp[i + 1, j, c])
                    else old(dst[i, j, c])
  {
    var rows, cols := dst.Length0, dst.Length1;
    var i := 1;
    while i < rows - 1
      invariant 1 <= i && (i <= rows - 1 || i == 1)
      invariant forall a, b, c :: 1 <= a < i && 1 <= b < cols - 1 && 0 <= c < 3
                    ==> dst[a, b, c] == ToShort(-1 * temp[a - 1, b, c] + 1 * temp[a + 1, b, c])
      invariant forall a, b, c :: Cell(a, b, c, rows, cols) && !(1 <= a < i && 1 <= b < cols - 1)
                    ==> dst[a, b, c] == old(dst[a, b, c])
    {
      DiffRowY(temp, i, dst);
      i := i + 1;
    }
  }

  /**
   * `sobelY3x3` as written. `temp` is the 16-bit scratch buffer that
   * `temp.create` hands out, with whatever shorts it held. The horizontal pass
   * covers rows 1 to rows-2 and every column (reading across the row ends
   * at columns 0 and cols-1); rows 0 and rows-1 of `temp` are never
   * written, yet the vertical pass reads them for output rows 1 and
   * rows-2.
   */
  method SobelY3x3(src: seq<seq<Pixel>>, cols: nat, temp: array3<int>, dst: array3<int>) returns (status: int)
    requires IsGrid(src, cols) && Shaped(temp, |src|, cols) && Shaped(dst, |src|, cols) && temp != dst
    requires forall a, b, c :: Cell(a, b, c, |src|, cols) ==> IsShort(temp[a, b, c])
    modifies temp, dst
    ensures status == -1 <==> Empty(src, cols)
    ensures status == -1 ==> unchanged(temp) && unchanged(dst)
    ensures status != -1 ==> status == 0
    ensures status != -1 ==> forall i, j, c :: Cell(i, j, c, |src|, cols)
                                 ==> dst[i, j, c] == if Interior(i, j, |src|, cols)
                                     then SobelYAsWritten(src, cols, old(RowOf(temp, 0)), old(RowOf(temp, |src| - 1)), i, j, c)
                                     else old(dst[i, j, c])
  {
    if Empty(src, cols) {
      return -1;
    }
    var rows := |src|;
    ghost var top, bottom := RowOf(temp, 0), RowOf(temp, rows - 1);
    var i := 1;
    while i < rows - 1
      invariant 1 <= i && (i <= rows - 1 || i == 1)
      invariant forall a, b, c :: 1 <= a < i && 0 <= b < cols && 0 <= c < 3
                    ==> temp[a, b, c] == SmoothY(src, cols, a, b, c)
      invariant forall b, c :: 0 <= b < cols && 0 <= c < 3
                    ==> temp[0, b, c] == top[b][c] && temp[rows - 1, b, c] == bottom[b][c]
      invariant unchanged(dst)
    {
      SmoothRowY(src, cols, i, 0, cols, temp);
      i := i + 1;
    }
    DiffRowsY(temp, dst);
    forall a, b, c | Cell(a, b, c, rows, cols) && Interior(a, b, rows, cols)
      ensures dst[a, b, c] == SobelYAsWritten(src, cols, top, bottom, a, b, c)
    {
      SmoothYInRow(src, cols, a + 1, b, c);
      SmoothYInRow(src, cols, a - 1, b, c);
      if a - 1 != 0 {
        ToShortOfShort(SmoothY(src, cols, a - 1, b, c));
      }
      if a + 1 != rows - 1 {
        ToShortOfShort(SmoothY(src, cols, a + 1, b, c));
      }
    }
    status := 0;
  }

  /**
   * `sobelY3x3` with the horizontal pass run, like `sobelX3x3`'s, on every
   * row and on columns 1 to cols-2: every interior output is the Sobel Y
   * response and no unwritten cell is read.
   */
  method SobelY3x3Corrected(src: seq<seq<Pixel>>, cols: nat, dst: array3<int>) returns (status: int)
    requires IsGrid(src, cols) && Shaped(dst, |src|, cols)
    modifies dst
    ensures status == -1 <==> Empty(src, cols)
    ensures status == -1 ==> unchanged(dst)
    ensures status != -1 ==> status == 0
    ensures forall i, j, c :: Cell(i, j, c, |src|, cols)
                ==> dst[i, j, c] == if Interior(i, j, |src|, cols)
                    then SobelYAt(src, cols, i, j, c)
                    else old(dst[i, j, c])
  {
    if Empty(src, cols) {
      return -1;
    }
    var rows := |src|;
    var temp := new int[rows, cols, 3];
    var i := 0;
    while i < rows
      invariant 0 <= i <= rows
      invariant forall a, b, c :: 0 <= a < i && 1 <= b < cols - 1 && 0 <= c < 3
                    ==> temp[a, b, c] == SmoothY(src, cols, a, b, c)
      invariant unchanged(dst)
    {
      SmoothRowY(src, cols, i, 1, cols - 1, temp);
      i := i + 1;
    }
    DiffRowsY(temp, dst);
    forall a, b, c | Cell(a, b, c, rows, cols) && Interior(a, b, rows, cols)
      ensures dst[a, b, c] == SobelYAt(src, cols, a, b, c)
    {
      SobelYIsKernel(src, cols, a, b, c);
      SmoothYInRow(src, cols, a + 1, b, c);
      SmoothYInRow(src, cols, a - 1, b, c);
    }
    status := 0;
  }

  /* ---------------- magnitude ---------------- */

  /** The smallest r from `r` upwards with n <= r(r+1): the integer nearest to sqrt(n). */
  function RootFrom(n: nat, r: nat): (s: nat)
    requires r == 0 || (r - 1) * r < n
    ensures s == 0 || (s - 1) * s < n
    ensures n <= s * (s + 1)
    decreases n - r
  {
    if n <= r * (r + 1) then r else RootFrom(n, r + 1)
  }

  /** sqrt(n) rounded to the nearest integer (n is never halfway between two squares' roots). */
  function RoundedRoot(n: nat): nat
  {
    RootFrom(n, 0)
  }

  /** r is within 1/2 of sqrt(n): (r - 1/2)^2 < n < (r + 1/2)^2, scaled by 4. */
  lemma RoundedRootIsNearest(n: nat)
    ensures var r: int := RoundedRoot(n);
            (n == 0 || (2 * r - 1) * (2 * r - 1) < 4 * n) && 4 * n < (2 * r + 1) * (2 * r + 1)
    ensures RoundedRoot(n) == 0 <==> n == 0
  {
    var r: int := RoundedRoot(n);
    assert (2 * r - 1) * (2 * r - 1) == 4 * ((r - 1) * r) + 1;
    assert (2 * r + 1) * (2 * r + 1) == 4 * (r * (r + 1)) + 1;
  }

  /** Only one r has (r-1)r < n <= r(r+1). */
  lemma RootUnique(n: nat, r: nat, s: nat)
    requires r == 0 || (r - 1) * r < n
    requires n <= r * (r + 1)
    requires s == 0 || (s - 1) * s < n
    requires n <= s * (s + 1)
    ensures r == s
  {
  }

  /** A perfect square's root is exact. */
  lemma RoundedRootOfSquare(k: nat)
    ensures RoundedRoot(k * k) == k
  {
    RootUnique(k * k, RoundedRoot(k * k), k);
  }

  /** `saturate_cast<uchar>` of a non-negative integer: values above 255 become 255. */
  function Clamp(k: nat): byte
  {
    if k < 255 then k as byte else 255
  }

  function Abs(x: int): nat
  {
    if x < 0 then -x else x
  }

  /** `saturate_cast<uchar>(sqrt(sx^2 + sy^2))`. */
  function Saturated(sx: int, sy: int): byte
  {
    Clamp(RoundedRoot(sx * sx + sy * sy))
  }

  /** The magnitude is zero exactly where both gradients are zero, and it is symmetric in them. */
  lemma SaturatedZero(sx: int, sy: int)
    ensures Saturated(sx, sy) == 0 <==> sx == 0 && sy == 0
    ensures Saturated(sx, sy) == Saturated(sy, sx)
  {
    var n := sx * sx + sy * sy;
    RoundedRootIsNearest(n);
    assert n == sy * sy + sx * sx;
    if sx != 0 || sy != 0 {
      assert 0 < n by {
        if sx != 0 {
          assert 0 < sx * sx;
        } else {
          assert 0 < sy * sy;
        }
      }
    }
  }

  /** A purely horizontal gradient gives its absolute value, capped at 255. */
  lemma SaturatedOfHorizontal(sx: int)
    ensures Saturated(sx, 0) == Clamp(Abs(sx))
  {
    var k := Abs(sx);
    assert sx * sx + 0 * 0 == k * k;
    RoundedRootOfSquare(k);
  }

  /**
   * `magnitude`: every cell of `dst` (the size of `sx`) gets the saturated
   * length of the gradient (`sx`, `sy`) of its channel.
   */
  method Magnitude(sx: array3<int>, sy: array3<int>, dst: array3<byte>) returns (status: int)
    requires Shaped(dst, sx.Length0, sx.Length1) && sx.Length2 == 3
    requires sx.Length0 <= sy.Length0 && sx.Length1 <= sy.Length1 && sy.Length2 == 3
    modifies dst
    ensures status == 0
    ensures forall i, j, c :: Cell(i, j, c, dst.Length0, dst.Length1)
                ==> dst[i, j, c] == Saturated(sx[i, j, c], sy[i, j, c])
  {
    var i := 0;
    while i < sx.Length0
      invariant 0 <= i <= sx.Length0
      invariant forall a, b, c :: 0 <= a < i && 0 <= b < sx.Length1 && 0 <= c < 3
                    ==> dst[a, b, c] == Saturated(sx[a, b, c], sy[a, b, c])
    {
      MagnitudeRow(sx, sy, i, dst);
      i := i + 1;
    }
    status := 0;
  }

  /** One row of `magnitude`. */
  method MagnitudeRow(sx: array3<int>, sy: array3<int>, i: int, dst: array3<byte>)
    requires Shaped(dst, sx.Length0, sx.Length1) && sx.Length2 == 3
    requires sx.Length0 <= sy.Length0 && sx.Length1 <= sy.Length1 && sy.Length2 == 3
    requires 0 <= i < sx.Length0
    modifies dst
    ensures forall j, c :: 0 <= j < sx.Length1 && 0 <= c < 3
                ==> dst[i, j, c] == Saturated(sx[i, j, c], sy[i, j, c])
    ensures forall a, b, c :: Cell(a, b, c, dst.Length0, dst.Length1) && a != i
                ==> dst[a, b, c] == old(dst[a, b, c])
  {
    var j := 0;
    while j < sx.Length1
      invariant 0 <= j <= sx.Length1
      invariant forall b, c :: 0 <= b < j && 0 <= c < 3
                    ==> dst[i, b, c] == Saturated(sx[i, b, c], sy[i, b, c])
      invariant forall a, b, c :: Cell(a, b, c, dst.Length0, dst.Length1) && a != i
                    ==> dst[a, b, c] == old(dst[a, b, c])
    {
      var c := 0;
      while c < 3
        invariant 0 <= c <= 3
        invariant forall b, d :: 0 <= b < j && 0 <= d < 3
                      ==> dst[i, b, d] == Saturated(sx[i, b, d], sy[i, b, d])
        invariant forall d :: 0 <= d < c ==> dst[i, j, d] == Saturated(sx[i, j, d], sy[i, j, d])
        invariant forall a, b, d :: Cell(a, b, d, dst.Length0, dst.Length1) && a != i
                      ==> dst[a, b, d] == old(dst[a, b, d])
      {
        dst[i, j, c] := Saturated(sx[i, j, c], sy[i, j, c]);
        c := c + 1;
      }
      j := j + 1;
    }
  }
}
