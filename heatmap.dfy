/**
 * `draw_gaussian`: stamps a (2r+1) x (2r+1) kernel, clipped to the heatmap,
 * onto a fresh zero heatmap of shape (height, width, channels) on the blob's
 * channel. The kernel values are taken as given (an opaque grid); what is
 * modelled is the clipping arithmetic, the slice of the kernel, the index
 * list built with the Cartesian product and the scatter write.
 */
module Heatmap {

  import opened CartesianProduct
  import opened MinMax

  /** The blob after the cast to integers: channel, centre column, centre row, radius. */
  datatype Blob = Blob(objClass: int, x: int, y: int, radius: int)

  /**
   * The clipped window around the centre: `left` columns before it and
   * `right` columns from it on (the centre included); `top` and `bottom`
   * likewise for rows.
   */
  datatype Margins = Margins(left: int, right: int, top: int, bottom: int)

  type Kernel = seq<seq<real>>

  /** A square grid of side 2 * radius + 1, the shape `_gaussian_penalty` returns. */
  predicate IsKernel(kernel: Kernel, radius: int)
  {
    && radius >= 0
    && |kernel| == 2 * radius + 1
    && forall i :: 0 <= i < |kernel| ==> |kernel[i]| == 2 * radius + 1
  }

  /** The centre lies inside the heatmap and the radius is not negative. */
  predicate Centred(height: int, width: int, b: Blob)
  {
    0 <= b.radius && 0 <= b.x < width && 0 <= b.y < height
  }

  /** What a caller of draw_gaussian guarantees. */
  predicate Drawable(height: int, width: int, channels: int, b: Blob, kernel: Kernel)
  {
    Centred(height, width, b) && 0 <= b.objClass < channels && IsKernel(kernel, b.radius)
  }

  /**
   * Margins that keep the window inside the (2r+1) x (2r+1) kernel with the
   * centre in it.
   */
  predicate Fits(m: Margins, radius: int)
  {
    && 0 <= m.left <= radius && 1 <= m.right <= radius + 1
    && 0 <= m.top <= radius && 1 <= m.bottom <= radius + 1
  }

  /** The index of a cell of a (d0, d1, d2) tensor. */
  predicate InBounds(idx: seq<int>, d0: int, d1: int, d2: int)
  {
    |idx| == 3 && 0 <= idx[0] < d0 && 0 <= idx[1] < d1 && 0 <= idx[2] < d2
  }

  predicate Distinct(xs: seq<seq<int>>)
  {
    forall s, t :: 0 <= s < t < |xs| ==> xs[s] != xs[t]
  }

  /**
   * The clip margins. The window they give, columns [x - left, x + right)
   * and rows [y - top, y + bottom), is the full window of the radius cut to
   * the heatmap; for a centre inside the heatmap the window keeps at least
   * the centre and at most the radius on each side.
   */
  function ClipMargins(height: int, width: int, x: int, y: int, radius: int): (m: Margins)
    ensures x - m.left == Max(0, x - radius) && x + m.right == Min(width, x + radius + 1)
    ensures y - m.top == Max(0, y - radius) && y + m.bottom == Min(height, y + radius + 1)
    ensures 0 <= radius && 0 <= x < width && 0 <= y < height ==> Fits(m, radius)
  {
    Margins(Min(x, radius), Min(width - x, radius + 1), Min(y, radius), Min(height - y, radius + 1))
  }

  /** `kernel[r0:r1, c0:c1]`. */
  function Slice(kernel: Kernel, r0: int, r1: int, c0: int, c1: int): (s: seq<seq<real>>)
    requires 0 <= r0 <= r1 <= |kernel| && 0 <= c0 <= c1
    requires forall i :: r0 <= i < r1 ==> c1 <= |kernel[i]|
    ensures |s| == r1 - r0 && forall i :: 0 <= i < |s| ==> |s[i]| == c1 - c0
    ensures forall i, j :: 0 <= i < |s| && 0 <= j < c1 - c0 ==> s[i][j] == kernel[r0 + i][c0 + j]
  {
    seq(r1 - r0, i requires 0 <= i < r1 - r0 => kernel[r0 + i][c0..c1])
  }

  /** `tf.reshape(rows, [-1])`: the rows one after another. */
  function Flatten(rows: seq<seq<real>>): seq<real>
  {
    if |rows| == 0 then [] else rows[0] + Flatten(rows[1..])
  }

  /** Every value multiplied by `factor`. */
  function Scaled(values: seq<real>, factor: real): seq<real>
  {
    seq(|values|, i requires 0 <= i < |values| => values[i] * factor)
  }

  /** Row-major order: entry `k` of a flattened grid of width `w` is at row `k / w`, column `k % w`. */
  lemma {:induction false} FlattenAt(rows: seq<seq<real>>, w: nat, k: nat)
    requires forall i :: 0 <= i < |rows| ==> |rows[i]| == w
    requires k < |rows| * w
    ensures |Flatten(rows)| == |rows| * w
    ensures 0 <= k / w < |rows| && 0 <= k % w < w
    ensures Flatten(rows)[k] == rows[k / w][k % w]
  {
    FlattenLength(rows, w);
    DivBound(k, |rows|, w);
    var rest := rows[1..];
    assert Flatten(rows) == rows[0] + Flatten(rest);
    if k < w {
      DivModUnique(k, w, 0, k);
    } else {
      assert |rows| * w == |rest| * w + w;
      FlattenAt(rest, w, k - w);
      DivStep(k, w);
    }
  }

  lemma {:induction false} FlattenLength(rows: seq<seq<real>>, w: nat)
    requires forall i :: 0 <= i < |rows| ==> |rows[i]| == w
    ensures |Flatten(rows)| == |rows| * w
  {
    if |rows| > 0 {
      FlattenLength(rows[1..], w);
    }
  }

  /**
   * The indices draw_gaussian writes for margins `m`: the product of the
   * clipped row range, the clipped column range and the single channel,
   * listed row-major over the window.
   */
  function StampIndices(b: Blob, m: Margins): (ix: seq<seq<int>>)
    requires Fits(m, b.radius)
    ensures var h, w := m.top + m.bottom, m.left + m.right;
      && |ix| == h * w
      && forall k :: 0 <= k < |ix| ==>
           && 0 <= k / w < h
           && ix[k] == [b.y - m.top + k / w, b.x - m.left + k % w, b.objClass]
  {
    var r0, h, c0, w := b.y - m.top, m.top + m.bottom, b.x - m.left, m.left + m.right;
    var seqs := [Range(r0, r0 + h), Range(c0, c0 + w), [b.objClass]];
    StampGridRows(seqs, r0, h, c0, w, b.objClass);
    Product(seqs)
  }

  /** Rows of `range(r0, r0 + h) x range(c0, c0 + w) x [ch]`, in closed form. */
  lemma StampGridRows(seqs: seq<seq<int>>, r0: int, h: nat, c0: int, w: nat, ch: int)
    requires h > 0 && w > 0
    requires seqs == [Range(r0, r0 + h), Range(c0, c0 + w), [ch]]
    ensures |Product(seqs)| == h * w
    ensures forall k :: 0 <= k < h * w ==> 0 <= k / w < h && Product(seqs)[k] == [r0 + k / w, c0 + k % w, ch]
  {
    StampGridCount(seqs, r0, h, c0, w, ch);
    ProductLength(seqs);
    forall k | 0 <= k < h * w
      ensures 0 <= k / w < h && Product(seqs)[k] == [r0 + k / w, c0 + k % w, ch]
    {
      StampGridRow(seqs, r0, h, c0, w, ch, k);
    }
  }

  lemma StampGridCount(seqs: seq<seq<int>>, r0: int, h: nat, c0: int, w: nat, ch: int)
    requires seqs == [Range(r0, r0 + h), Range(c0, c0 + w), [ch]]
    ensures Count(seqs[2..]) == 1 && Count(seqs[1..]) == w && Count(seqs) == h * w
  {
    assert seqs[3..] == [] && seqs[2..] == [[ch]] && seqs[1..] == [Range(c0, c0 + w), [ch]];
  }

  lemma StampGridRow(seqs: seq<seq<int>>, r0: int, h: nat, c0: int, w: nat, ch: int, k: nat)
    requires h > 0 && w > 0 && k < h * w
    requires seqs == [Range(r0, r0 + h), Range(c0, c0 + w), [ch]]
    ensures |Product(seqs)| == h * w
    ensures 0 <= k / w < h && Product(seqs)[k] == [r0 + k / w, c0 + k % w, ch]
  {
    StampGridCount(seqs, r0, h, c0, w, ch);
    DivBound(k, h, w);
    ProductRow(seqs, k);
    DigitHead(seqs, k);
    var row := Product(seqs)[k];
    assert Digit(seqs, k, 1) == k % w;
    assert Digit(seqs, k, 2) == 0;
    assert row[0] == r0 + k / w && row[1] == c0 + k % w && row[2] == ch;
  }

  /**
   * `vs` lists the block of `h` rows and `w` columns of `kernel` whose corner
   * is at (r0, c0), row by row, each entry multiplied by `scale`.
   */
  predicate ScaledBlock(vs: seq<real>, kernel: Kernel, r0: nat, h: nat, c0: nat, w: nat, scale: real)
    requires w > 0 && r0 + h <= |kernel| && forall i :: r0 <= i < r0 + h ==> c0 + w <= |kernel[i]|
  {
    && |vs| == h * w
    && forall k :: 0 <= k < |vs| ==> 0 <= k / w < h && vs[k] == kernel[r0 + k / w][c0 + k % w] * scale
  }

  /**
   * The values draw_gaussian writes: the kernel sliced to the clipped window,
   * flattened row-major and multiplied by the scaling factor.
   */
  function StampValues(b: Blob, m: Margins, kernel: Kernel, scale: real): (vs: seq<real>)
    requires Fits(m, b.radius) && IsKernel(kernel, b.radius)
    ensures ScaledBlock(vs, kernel, b.radius - m.top, m.top + m.bottom, b.radius - m.left, m.left + m.right, scale)
  {
    var r0, h, c0, w := b.radius - m.top, m.top + m.bottom, b.radius - m.left, m.left + m.right;
    ClippedKernelAt(kernel, r0, h, c0, w, scale);
    Scaled(Flatten(Slice(kernel, r0, r0 + h, c0, c0 + w)), scale)
  }

  /** Slicing, flattening and scaling a block of the kernel lists it row by row. */
  lemma ClippedKernelAt(kernel: Kernel, r0: nat, h: nat, c0: nat, w: nat, scale: real)
    requires w > 0 && r0 + h <= |kernel| && forall i :: r0 <= i < r0 + h ==> c0 + w <= |kernel[i]|
    ensures ScaledBlock(Scaled(Flatten(Slice(kernel, r0, r0 + h, c0, c0 + w)), scale), kernel, r0, h, c0, w, scale)
  {
    var clipped := Slice(kernel, r0, r0 + h, c0, c0 + w);
    FlattenLength(clipped, w);
    var vs := Scaled(Flatten(clipped), scale);
    forall k | 0 <= k < |vs|
      ensures 0 <= k / w < h && vs[k] == kernel[r0 + k / w][c0 + k % w] * scale
    {
      FlattenAt(clipped, w, k);
    }
  }

  /**
   * Every index draw_gaussian writes lies in the clipped window on the
   * blob's channel, hence inside the heatmap: there is no write at a
   * negative index even when the centre is at a corner.
   */
  lemma StampIndicesInBounds(height: int, width: int, channels: int, b: Blob, k: nat)
    requires Centred(height, width, b) && 0 <= b.objClass < channels
    requires k < |StampIndices(b, ClipMargins(height, width, b.x, b.y, b.radius))|
    ensures var m := ClipMargins(height, width, b.x, b.y, b.radius);
      var idx := StampIndices(b, m)[k];
      && b.y - m.top <= idx[0] < b.y + m.bottom
      && b.x - m.left <= idx[1] < b.x + m.right
      && idx[2] == b.objClass
      && InBounds(idx, height, width, channels)
  {
  }

  /** draw_gaussian never writes the same cell twice, so the scatter has no collision. */
  lemma StampDistinct(b: Blob, m: Margins)
    requires Fits(m, b.radius)
    ensures Distinct(StampIndices(b, m))
  {
    var seqs := [Range(b.y - m.top, b.y + m.bottom), Range(b.x - m.left, b.x + m.right), [b.objClass]];
    assert StampIndices(b, m) == Product(seqs);
    ProductSorted(seqs);
    forall s, t | 0 <= s < t < |Product(seqs)|
      ensures Product(seqs)[s] != Product(seqs)[t]
    {
      LexLessDistinct(Product(seqs)[s], Product(seqs)[t]);
    }
  }

  /**
   * With the centre at least `radius` from the top and left edges and at
   * least `radius + 1` from the bottom and right edges, nothing is clipped
   * and the whole (2r+1) x (2r+1) window is written.
   */
  lemma StampFullWindow(height: int, width: int, b: Blob)
    requires Centred(height, width, b)
    requires b.radius <= b.x && b.x + b.radius < width && b.radius <= b.y && b.y + b.radius < height
    ensures ClipMargins(height, width, b.x, b.y, b.radius) == Margins(b.radius, b.radius + 1, b.radius, b.radius + 1)
    ensures |StampIndices(b, ClipMargins(height, width, b.x, b.y, b.radius))| == (2 * b.radius + 1) * (2 * b.radius + 1)
  {
  }

  // ---------------------------------------------------------------------
  // The scatter write

  /**
   * The value a scatter of `updates` at `indices`, applied in order, leaves
   * in `cell`: that of the last write to it, `default` if there is none.
   */
  function LastWrite(indices: seq<seq<int>>, updates: seq<real>, cell: seq<int>, default: real): real
    requires |indices| == |updates|
  {
    if |indices| == 0 then default
    else if indices[|indices| - 1] == cell then updates[|updates| - 1]
    else LastWrite(indices[..|indices| - 1], updates[..|updates| - 1], cell, default)
  }

  /** The write at position `t` wins when no later write goes to the same cell. */
  lemma {:induction false} LastWriteAt(indices: seq<seq<int>>, updates: seq<real>, t: nat, default: real)
    requires |indices| == |updates| && t < |indices|
    requires forall s :: t < s < |indices| ==> indices[s] != indices[t]
    ensures LastWrite(indices, updates, indices[t], default) == updates[t]
  {
    var n := |indices| - 1;
    if t < n {
      LastWriteAt(indices[..n], updates[..n], t, default);
    }
  }

  /** A cell that no index names keeps its default. */
  lemma {:induction false} LastWriteAbsent(indices: seq<seq<int>>, updates: seq<real>, cell: seq<int>, default: real)
    requires |indices| == |updates| && cell !in indices
    ensures LastWrite(indices, updates, cell, default) == default
  {
    if |indices| > 0 {
      var n := |indices| - 1;
      assert forall c :: c in indices[..n] ==> c in indices;
      LastWriteAbsent(indices[..n], updates[..n], cell, default);
    }
  }

  /**
   * `tf.tensor_scatter_nd_update`: writes `updates[t]` at `indices[t]` in
   * order; every cell ends up with its last write, or its old value.
   */
  method ScatterUpdate(hm: array3<real>, indices: seq<seq<int>>, updates: seq<real>)
    requires |indices| == |updates|
    requires forall t :: 0 <= t < |indices| ==> InBounds(indices[t], hm.Length0, hm.Length1, hm.Length2)
    modifies hm
    ensures forall i, j, k :: 0 <= i < hm.Length0 && 0 <= j < hm.Length1 && 0 <= k < hm.Length2 ==>
      hm[i, j, k] == LastWrite(indices, updates, [i, j, k], old(hm[i, j, k]))
  {
    var n := 0;
    while n < |indices|
      invariant 0 <= n <= |indices|
      invariant forall i, j, k :: 0 <= i < hm.Length0 && 0 <= j < hm.Length1 && 0 <= k < hm.Length2 ==>
        hm[i, j, k] == LastWrite(indices[..n], updates[..n], [i, j, k], old(hm[i, j, k]))
    {
      var idx := indices[n];
      hm[idx[0], idx[1], idx[2]] := updates[n];
      assert indices[..n + 1][..n] == indices[..n];
      assert updates[..n + 1][..n] == updates[..n];
      assert idx == [idx[0], idx[1], idx[2]];
      n := n + 1;
    }
    assert indices[..n] == indices && updates[..n] == updates;
  }

  /**
   * The heatmap draw_gaussian is meant to produce: on the blob's channel,
   * the cell at offset (dy, dx) from the centre, within the radius, holds
   * kernel[radius + dy][radius + dx] times the scaling factor; every other
   * cell is zero.
   */
  function Expected(b: Blob, kernel: Kernel, scale: real, row: int, col: int, ch: int): real
    requires IsKernel(kernel, b.radius)
  {
    if ch == b.objClass && b.y - b.radius <= row <= b.y + b.radius && b.x - b.radius <= col <= b.x + b.radius
    then kernel[b.radius + row - b.y][b.radius + col - b.x] * scale
    else 0.0
  }

  /** Row `a`, column `c` of a grid of width `w` and height `h` is entry `a * w + c` of its row-major list. */
  lemma GridPosition(a: nat, c: nat, h: nat, w: nat) returns (t: nat)
    requires a < h && c < w
    ensures t < h * w && t / w == a && t % w == c
  {
    assert (h - a) * w == h * w - a * w;
    MulAtLeast(h - a, w);
    t := a * w + c;
    DivModUnique(t, w, a, c);
  }

  /**
   * After the scatter, the cell `a` rows and `c` columns into the window, on
   * the blob's channel, holds the kernel entry at the same place in the
   * sliced kernel, scaled.
   */
  lemma StampAt(b: Blob, m: Margins, kernel: Kernel, scale: real, row: int, col: int)
    requires Fits(m, b.radius) && IsKernel(kernel, b.radius)
    requires b.y - m.top <= row < b.y + m.bottom && b.x - m.left <= col < b.x + m.right
    ensures |StampIndices(b, m)| == |StampValues(b, m, kernel, scale)|
    ensures LastWrite(StampIndices(b, m), StampValues(b, m, kernel, scale), [row, col, b.objClass], 0.0)
         == kernel[b.radius + row - b.y][b.radius + col - b.x] * scale
  {
    var ix := StampIndices(b, m);
    var vs := StampValues(b, m, kernel, scale);
    var a, c := row - (b.y - m.top), col - (b.x - m.left);
    var t := GridPosition(a, c, m.top + m.bottom, m.left + m.right);
    assert ix[t] == [row, col, b.objClass];
    assert vs[t] == kernel[b.radius + row - b.y][b.radius + col - b.x] * scale;
    StampWins(b, m, kernel, scale, t);
  }

  /** Since no cell is written twice, every write of draw_gaussian survives the scatter. */
  lemma StampWins(b: Blob, m: Margins, kernel: Kernel, scale: real, t: nat)
    requires Fits(m, b.radius) && IsKernel(kernel, b.radius)
    requires t < |StampIndices(b, m)|
    ensures |StampIndices(b, m)| == |StampValues(b, m, kernel, scale)|
    ensures LastWrite(StampIndices(b, m), StampValues(b, m, kernel, scale), StampIndices(b, m)[t], 0.0)
         == StampValues(b, m, kernel, scale)[t]
  {
    StampDistinct(b, m);
    LastWriteAt(StampIndices(b, m), StampValues(b, m, kernel, scale), t, 0.0);
  }

  /** Inside the window, on the blob's channel, the cell gets its scaled kernel entry. */
  lemma StampCellInside(height: int, width: int, channels: int, b: Blob, kernel: Kernel, scale: real,
                        row: int, col: int, ch: int)
    requires Drawable(height, width, channels, b, kernel)
    requires 0 <= row < height && 0 <= col < width && ch == b.objClass
    requires b.y - b.radius <= row <= b.y + b.radius && b.x - b.radius <= col <= b.x + b.radius
    ensures var m := ClipMargins(height, width, b.x, b.y, b.radius);
      && |StampIndices(b, m)| == |StampValues(b, m, kernel, scale)|
      && LastWrite(StampIndices(b, m), StampValues(b, m, kernel, scale), [row, col, ch], 0.0)
         == kernel[b.radius + row - b.y][b.radius + col - b.x] * scale
  {
    var m := ClipMargins(height, width, b.x, b.y, b.radius);
    assert Fits(m, b.radius);
    assert b.y - m.top <= row < b.y + m.bottom;
    assert b.x - m.left <= col < b.x + m.right;
    StampAt(b, m, kernel, scale, row, col);
  }

  /** Outside the window, or on another channel, the cell keeps its zero. */
  lemma StampCellOutside(height: int, width: int, channels: int, b: Blob, kernel: Kernel, scale: real,
                         row: int, col: int, ch: int)
    requires Drawable(height, width, channels, b, kernel)
    requires 0 <= row < height && 0 <= col < width
    requires !(ch == b.objClass && b.y - b.radius <= row <= b.y + b.radius && b.x - b.radius <= col <= b.x + b.radius)
    ensures var m := ClipMargins(height, width, b.x, b.y, b.radius);
      && |StampIndices(b, m)| == |StampValues(b, m, kernel, scale)|
      && LastWrite(StampIndices(b, m), StampValues(b, m, kernel, scale), [row, col, ch], 0.0) == 0.0
  {
    var m := ClipMargins(height, width, b.x, b.y, b.radius);
    var ix := StampIndices(b, m);
    forall k | 0 <= k < |ix| ensures ix[k] != [row, col, ch] {
      StampIndicesInBounds(height, width, channels, b, k);
    }
    LastWriteAbsent(ix, StampValues(b, m, kernel, scale), [row, col, ch], 0.0);
  }

  /** Scattering the stamp onto zeros leaves in every cell what `Expected` says. */
  lemma StampCell(height: int, width: int, channels: int, b: Blob, kernel: Kernel, scale: real,
                  row: int, col: int, ch: int)
    requires Drawable(height, width, channels, b, kernel)
    requires 0 <= row < height && 0 <= col < width
    ensures var m := ClipMargins(height, width, b.x, b.y, b.radius);
      && |StampIndices(b, m)| == |StampValues(b, m, kernel, scale)|
      && LastWrite(StampIndices(b, m), StampValues(b, m, kernel, scale), [row, col, ch], 0.0)
         == Expected(b, kernel, scale, row, col, ch)
  {
    if ch == b.objClass && b.y - b.radius <= row <= b.y + b.radius && b.x - b.radius <= col <= b.x + b.radius {
      assert Expected(b, kernel, scale, row, col, ch) == kernel[b.radius + row - b.y][b.radius + col - b.x] * scale;
      StampCellInside(height, width, channels, b, kernel, scale, row, col, ch);
    } else {
      assert Expected(b, kernel, scale, row, col, ch) == 0.0;
      StampCellOutside(height, width, channels, b, kernel, scale, row, col, ch);
    }
  }

  /**
   * `draw_gaussian(hm_shape, blob, dtype, scaling_factor)` with the kernel
   * given: a fresh heatmap of shape (height, width, channels) holding the
   * clipped, scaled kernel on the blob's channel and zero everywhere else.
   */
  method DrawGaussian(height: nat, width: nat, channels: nat, b: Blob, kernel: Kernel, scale: real)
    returns (hm: array3<real>)
    requires Drawable(height, width, channels, b, kernel)
    ensures fresh(hm)
    ensures hm.Length0 == height && hm.Length1 == width && hm.Length2 == channels
    ensures forall i, j, k :: 0 <= i < height && 0 <= j < width && 0 <= k < channels ==>
      hm[i, j, k] == Expected(b, kernel, scale, i, j, k)
  {
    hm := new real[height, width, channels]((i, j, k) => 0.0);
    var m := ClipMargins(height, width, b.x, b.y, b.radius);
    var indices := StampIndices(b, m);
    var values := StampValues(b, m, kernel, scale);
    forall t | 0 <= t < |indices| ensures InBounds(indices[t], height, width, channels) {
      StampIndicesInBounds(height, width, channels, b, t);
    }
    assert forall i, j, k :: 0 <= i < height && 0 <= j < width && 0 <= k < channels ==> hm[i, j, k] == 0.0;
    ScatterUpdate(hm, indices, values);
    forall i, j, k | 0 <= i < height && 0 <= j < width && 0 <= k < channels
      ensures hm[i, j, k] == Expected(b, kernel, scale, i, j, k)
    {
      StampCell(height, width, channels, b, kernel, scale, i, j, k);
    }
  }
}
