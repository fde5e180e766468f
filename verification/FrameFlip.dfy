/**
  Turning a frame upside down (src/gtk/ghostty_terminal.c:440-473): OpenGL
  counts its rows from the bottom, GDK from the top.
 */
module FrameFlip {
  import opened Options

  datatype Frame = Frame(data: seq<int>, width: nat, height: nat, stride: nat)

  /** What is checked before a frame is copied. */
  predicate Presentable(f: Frame, maxSize: nat) {
    && f.width != 0 && f.height != 0 && f.stride >= f.width * 4
    && f.stride > 0 && f.height <= maxSize / f.stride
    && |f.data| >= f.height * f.stride
  }

  lemma QuotientBounds(a: nat, b: nat, c: nat)
    requires b > 0
    ensures a <= c / b <==> a * b <= c
  {
    var q, rest := c / b, c % b;
    assert c == q * b + rest && 0 <= rest < b;
    if a <= q {
      Monotone(a, q, b);
    } else {
      Monotone(q + 1, a, b);
      Distributes(q, b);
    }
  }

  /** A frame is presented exactly when it has a pixel, its rows hold four bytes
      for each, and all of it is there and of a size that can be allocated: the
      division leaves no room for an overflow. */
  lemma PresentableIff(f: Frame, maxSize: nat)
    ensures Presentable(f, maxSize) <==>
            && f.width >= 1 && f.height >= 1 && 4 * f.width <= f.stride
            && f.height * f.stride <= maxSize && f.height * f.stride <= |f.data|
  {
    if f.stride > 0 {
      QuotientBounds(f.height, f.stride, maxSize);
    }
  }

  lemma RowFits(row: nat, height: nat, stride: nat)
    requires row < height
    ensures (row + 1) * stride == row * stride + stride <= height * stride
  {
    Distributes(row, stride);
    Monotone(row + 1, height, stride);
  }

  lemma Distributes(row: nat, stride: nat)
    ensures (row + 1) * stride == row * stride + stride
  {
  }

  lemma Monotone(a: nat, b: nat, stride: nat)
    requires a <= b
    ensures a * stride <= b * stride
  {
  }

  /** One row of a frame's data. */
  function Row(data: seq<int>, stride: nat, height: nat, row: nat): (r: seq<int>)
    requires row < height && height * stride <= |data|
    ensures |r| == stride
  {
    RowFits(row, height, stride);
    data[row * stride..row * stride + stride]
  }

  /** The first `n` rows of the picture. */
  function Flipped(data: seq<int>, stride: nat, height: nat, n: nat): (r: seq<int>)
    requires n <= height && height * stride <= |data|
    ensures |r| == n * stride
  {
    if n == 0 then []
    else
      Distributes(n - 1, stride);
      Flipped(data, stride, height, n - 1) + Row(data, stride, height, height - n)
  }

  lemma SliceOfJoin(a: seq<int>, b: seq<int>, at: nat, n: nat)
    ensures at + n <= |a| ==> (a + b)[at..at + n] == a[at..at + n]
    ensures at == |a| && n == |b| ==> (a + b)[at..at + n] == b
  {
  }

  lemma {:induction false} FlippedRow(data: seq<int>, stride: nat, height: nat, n: nat, row: nat)
    requires row < n <= height && height * stride <= |data|
    ensures Row(Flipped(data, stride, height, n), stride, n, row) == Row(data, stride, height, height - 1 - row)
  {
    var front, last := Flipped(data, stride, height, n - 1), Row(data, stride, height, height - n);
    RowFits(row, n, stride);
    SliceOfJoin(front, last, row * stride, stride);
    if row < n - 1 {
      RowFits(row, n - 1, stride);
      FlippedRow(data, stride, height, n - 1, row);
    } else {
      assert row == n - 1;
    }
  }

  /** Every row of the picture is the frame's row counted from the other end. */
  lemma PictureRows(data: seq<int>, stride: nat, height: nat, row: nat)
    requires row < height && height * stride <= |data|
    ensures Row(Flipped(data, stride, height, height), stride, height, row) == Row(data, stride, height, height - 1 - row)
  {
    FlippedRow(data, stride, height, height, row);
  }

  lemma {:induction false} FlippedTwicePrefix(data: seq<int>, stride: nat, height: nat, n: nat)
    requires n <= height && height * stride <= |data|
    ensures n * stride <= |data|
    ensures Flipped(Flipped(data, stride, height, height), stride, height, n) == data[..n * stride]
  {
    Monotone(n, height, stride);
    if n > 0 {
      FlippedTwicePrefix(data, stride, height, n - 1);
      PictureRows(data, stride, height, height - n);
      RowFits(n - 1, height, stride);
      assert data[..n * stride] == data[..(n - 1) * stride] + Row(data, stride, height, n - 1);
    }
  }

  /** Flipping is its own inverse. */
  lemma FlippedTwice(data: seq<int>, stride: nat, height: nat)
    requires height * stride <= |data|
    ensures Flipped(Flipped(data, stride, height, height), stride, height, height) == data[..height * stride]
  {
    FlippedTwicePrefix(data, stride, height, height);
  }

  method PresentFrame(f: Frame, maxSize: nat) returns (pixels: Option<array<int>>)
    ensures pixels.Some? <==> Presentable(f, maxSize)
    ensures pixels.Some? ==> && fresh(pixels.value)
                             && pixels.value[..] == Flipped(f.data, f.stride, f.height, f.height)
  {
    if f.width == 0 || f.height == 0 || f.stride < f.width * 4 || f.height > maxSize / f.stride {
      return None;
    }
    var size := f.height * f.stride;
    if |f.data| < size {
      return None;
    }
    var image := new int[size];
    for row := 0 to f.height
      invariant row * f.stride <= image.Length
      invariant image[..row * f.stride] == Flipped(f.data, f.stride, f.height, row)
    {
      RowFits(row, f.height, f.stride);
      RowFits(f.height - row - 1, f.height, f.stride);
      CopyRow(image, row * f.stride, f.data, (f.height - row - 1) * f.stride, f.stride);
    }
    assert image[..] == image[..size];
    return Some(image);
  }

  /** memcpy. */
  method CopyRow(to: array<int>, at: nat, from: seq<int>, start: nat, n: nat)
    requires at + n <= to.Length && start + n <= |from|
    modifies to
    ensures to[..at + n] == old(to[..at]) + from[start..start + n]
  {
    forall i | 0 <= i < n {
      to[at + i] := from[start + i];
    }
  }
}
