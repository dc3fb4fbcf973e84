# CenterNet preprocessing operations in Dafny

This project models the preprocessing operations of the CenterNet vision
project. CenterNet uses them to build its training targets:

- `cartesian_product`: the n-ary Cartesian product of one-dimensional index
  sequences, with an optional repeat count. Rows come in lexicographic order,
  last sequence fastest.
- `draw_gaussian`: rasterises a (2r+1) x (2r+1) Gaussian kernel onto a fresh,
  zero-filled (height, width, channels) heatmap, in one channel, around a
  centre. Parts of the kernel that fall outside the heatmap are clipped. The
  writes go through one scatter-update whose index list is built with
  `cartesian_product`.
- `pad_max_instances`: makes one axis of a tensor exactly `instances` long. It
  cuts off the extra slices, or appends slices filled with a pad value. A
  negative axis counts from the end.
- `get_image_shape`: the (height, width) of an image, batched or not.

The project has six modules:

- `Optional` (`option.dfy`): the `Option` type, which stands for the
  source's failures.
- `MinMax` (`minmax.dfy`): the smaller and the larger of two integers.
- `CartesianProduct` (`product.dfy`): the product as a pure function on
  sequences, with its row count, row contents, row order and the repeat
  argument.
- `Heatmap` (`heatmap.dfy`): `draw_gaussian`.
  - It is a method that allocates an `array3<real>` of zeros and applies the
    scatter-update in a loop (`ScatterUpdate`).
  - Its result is proved equal, cell by cell, to the intended heatmap
    (`Expected`).
  - The kernel is a parameter: the model treats it as any
    (2r+1) x (2r+1) grid of reals.
- `Padding` (`padding.dfy`): tensors as nested sequences with their shape,
  and the three tensor operations `pad_max_instances` is built from:
  `tf.split` (first part), `tf.fill` and `tf.concat`.
- `ImageShape` (`shape.dfy`): `get_image_shape` on the shape of the image.

## Model

| member | source | states |
|---|---|---|
| CartesianProduct.Range | official/vision/beta/projects/centernet/ops/preprocess_ops.py:174-175 | `tf.range(lo, hi)` is strictly increasing and holds exactly the integers in `[lo, hi)` |
| CartesianProduct.ProductLength | official/vision/beta/projects/centernet/ops/preprocess_ops.py:135-137 | the product has exactly as many rows as the product of the sequences' lengths |
| CartesianProduct.Product | official/vision/beta/projects/centernet/ops/preprocess_ops.py:135-137 | the rows of the product; characterised by `ProductLength`, `ProductRow`, `ProductMember` and `ProductSorted` |
| CartesianProduct.ProductRow | official/vision/beta/projects/centernet/ops/preprocess_ops.py:135-137 | row n has one column per sequence; column j holds element `(n / Count(later sequences)) % len(seq j)` of sequence j, the mixed-radix digit of n |
| CartesianProduct.ProductMember | official/vision/beta/projects/centernet/ops/preprocess_ops.py:135-137 | a sequence is a row of the product exactly when it has one entry per sequence and entry j is an element of sequence j |
| CartesianProduct.ProductSorted | official/vision/beta/projects/centernet/ops/preprocess_ops.py:108-124 | for strictly increasing integer sequences, the rows are in strictly increasing lexicographic order: last sequence fastest |
| CartesianProduct.CountZero | official/vision/beta/projects/centernet/ops/preprocess_ops.py:135-137 | the product has no rows exactly when one of the sequences is empty |
| CartesianProduct.Repeated | official/vision/beta/projects/centernet/ops/preprocess_ops.py:134 | `tensors * repeat`, Python's list repetition (empty for `repeat <= 0`); characterised by `RepeatedShape` |
| CartesianProduct.RepeatedShape | official/vision/beta/projects/centernet/ops/preprocess_ops.py:134 | `tensors * repeat` has `len * repeat` entries, entry i is `tensors[i % len]`, and its product count is the count of `tensors` raised to `repeat` |
| CartesianProduct.CartesianProductOf | official/vision/beta/projects/centernet/ops/preprocess_ops.py:105-137 | the result exists exactly when there are tensors and `repeat > 0` (failure on an empty argument list is the model's reading, see "## Left out"); its rows are described by `CartesianProductShape` |
| CartesianProduct.EmptyArguments | official/vision/beta/projects/centernet/ops/preprocess_ops.py:134-137 | with no tensors or `repeat <= 0` there is no result, while the product of the empty argument list, as itertools gives it, is one empty row |
| CartesianProduct.CartesianProductShape | official/vision/beta/projects/centernet/ops/preprocess_ops.py:134-137 | when the result exists, it has `Count(tensors)^repeat` rows of width `len(tensors) * repeat`, and no rows when a tensor is empty |
| CartesianProduct.GridRow | official/vision/beta/projects/centernet/ops/preprocess_ops.py:110-124 | `cartesian_product(range(a), range(b))` (repeat 1) is the product of the two ranges, and its row n is `[n / b, n % b]`: the documented `range(3) x range(4)` table in general |
| CartesianProduct.SmallProduct | official/vision/beta/projects/centernet/ops/preprocess_ops.py:134-137 | `cartesian_product([0, 1], [0, 1, 2])` (repeat 1) is `(0,0), (0,1), (0,2), (1,0), (1,1), (1,2)` |
| Heatmap.ClipMargins | official/vision/beta/projects/centernet/ops/preprocess_ops.py:165-168 | the window runs from `max(0, x - r)` to `min(width, x + r + 1)` (rows likewise). For a centre inside the heatmap, `0 <= left, top <= r` and `1 <= right, bottom <= r + 1` |
| Heatmap.StampIndices | official/vision/beta/projects/centernet/ops/preprocess_ops.py:174-175 | the index list has `(top + bottom) * (left + right)` entries, and entry k is `(y - top + k / w, x - left + k % w, obj_class)` |
| Heatmap.StampValues | official/vision/beta/projects/centernet/ops/preprocess_ops.py:170-172 | the value list is the kernel block `[r - top, r + bottom) x [r - left, r + right)`, row-major, times the scaling factor, as long as the index list |
| Heatmap.Slice | official/vision/beta/projects/centernet/ops/preprocess_ops.py:171 | `kernel[r0:r1, c0:c1]` has `r1 - r0` rows of `c1 - c0` entries, and entry (i, j) is `kernel[r0 + i][c0 + j]` |
| Heatmap.Flatten | official/vision/beta/projects/centernet/ops/preprocess_ops.py:172 | `tf.reshape(rows, [-1])`; characterised by `FlattenAt` and `FlattenLength` |
| Heatmap.FlattenLength | official/vision/beta/projects/centernet/ops/preprocess_ops.py:172 | a grid of rows of width w flattens to rows times w entries |
| Heatmap.Scaled | official/vision/beta/projects/centernet/ops/preprocess_ops.py:176-177 | every value times the scaling factor; characterised by `StampValues`, whose block predicate gives each entry as the kernel entry times the factor |
| Heatmap.FlattenAt | official/vision/beta/projects/centernet/ops/preprocess_ops.py:172 | entry k of a flattened grid of width w is row `k / w`, column `k % w` |
| Heatmap.StampIndicesInBounds | official/vision/beta/projects/centernet/ops/preprocess_ops.py:165-175 | every written index lies in the clipped window, on channel `obj_class`, inside the heatmap |
| Heatmap.StampDistinct | official/vision/beta/projects/centernet/ops/preprocess_ops.py:174-177 | no two entries of the index list are equal, so no cell is written twice |
| Heatmap.StampFullWindow | official/vision/beta/projects/centernet/ops/preprocess_ops.py:165-175 | with the centre at least r from the edges (r + 1 from the far ones), nothing is clipped and all (2r+1)^2 cells are written |
| Heatmap.LastWrite | official/vision/beta/projects/centernet/ops/preprocess_ops.py:176-177 | the value a cell holds after the scatter-update; characterised by `LastWriteAt` and `LastWriteAbsent` |
| Heatmap.LastWriteAt | official/vision/beta/projects/centernet/ops/preprocess_ops.py:176-177 | a write that no later write overrides decides its cell |
| Heatmap.LastWriteAbsent | official/vision/beta/projects/centernet/ops/preprocess_ops.py:176-177 | a cell no index names keeps its old value |
| Heatmap.ScatterUpdate | official/vision/beta/projects/centernet/ops/preprocess_ops.py:176-177 | after the scatter-update, every cell holds its last write, or its old value if nothing was written there |
| Heatmap.Expected | official/vision/beta/projects/centernet/ops/preprocess_ops.py:140-179 | the intended heatmap cell: the scaled kernel entry at the cell's offset inside the clipped window on channel `obj_class`, 0 elsewhere; `DrawGaussian` and `StampCell` state that the method produces it |
| Heatmap.StampWins | official/vision/beta/projects/centernet/ops/preprocess_ops.py:174-177 | since no cell is written twice, every write of `draw_gaussian` is the value its cell holds after the scatter |
| Heatmap.StampAt | official/vision/beta/projects/centernet/ops/preprocess_ops.py:170-177 | a cell of the window on the blob's channel receives `kernel[r + row - y][r + col - x] * scale` |
| Heatmap.StampCell | official/vision/beta/projects/centernet/ops/preprocess_ops.py:158-177 | scattering the stamp onto zeros leaves in every cell the value `Expected` gives |
| Heatmap.DrawGaussian | official/vision/beta/projects/centernet/ops/preprocess_ops.py:140-179 | returns a fresh heatmap of shape `hm_shape`. A cell within distance r of the centre, per axis, on channel `obj_class` holds the scaled kernel entry at its offset; every other cell is 0 |
| Padding.Fill | official/vision/beta/projects/centernet/ops/preprocess_ops.py:245 | `tf.fill` builds a tensor of the requested shape |
| Padding.FillGet | official/vision/beta/projects/centernet/ops/preprocess_ops.py:245 | every element of a filled tensor is the fill value |
| Padding.Take | official/vision/beta/projects/centernet/ops/preprocess_ops.py:242 | the first part of the split has the input's shape with the split axis cut to `take` |
| Padding.TakeGet | official/vision/beta/projects/centernet/ops/preprocess_ops.py:242 | the first part of the split holds the input's elements at their own indices |
| Padding.Concat | official/vision/beta/projects/centernet/ops/preprocess_ops.py:246 | concatenating tensors that agree on every other axis adds their extents along the axis |
| Padding.ConcatGet | official/vision/beta/projects/centernet/ops/preprocess_ops.py:246 | an element of the concatenation comes from the first tensor below its extent, and otherwise from the second at the shifted index |
| Padding.ResolveAxis | official/vision/beta/projects/centernet/ops/preprocess_ops.py:238-239 | a negative `pad_axis` has the rank added to it once; a non-negative one is kept |
| Padding.TfAxis | official/vision/beta/projects/centernet/ops/preprocess_ops.py:240-242 | a TensorFlow index or `axis` argument names an axis exactly when it is in `[-rank, rank)`; a negative one counts from the end |
| Padding.SliceBound | official/vision/beta/projects/centernet/ops/preprocess_ops.py:244 | a Python slice bound lies in `[0, n]`, equals a bound already in `[0, n]`, and counts a bound in `[-n, 0)` from the end |
| Padding.PaddedAxis | official/vision/beta/projects/centernet/ops/preprocess_ops.py:238-246 | an axis is padded exactly when `-rank <= pad_axis < rank` or `-2 * rank <= pad_axis <= -rank - 2`; it is `pad_axis`, `pad_axis + rank` or `pad_axis + 2 * rank` respectively |
| Padding.PadShapeSlices | official/vision/beta/projects/centernet/ops/preprocess_ops.py:244 | the padding shape built from slices of the shape keeps the rank exactly when the once-resolved axis is not -1, and is then the shape with the padded axis set to `pad` |
| Padding.PadAlong | official/vision/beta/projects/centernet/ops/preprocess_ops.py:239-246 | after split, fill and concat, the axis has extent exactly `instances` |
| Padding.PadMaxInstances | official/vision/beta/projects/centernet/ops/preprocess_ops.py:236-247 | the result exists exactly when `-rank <= pad_axis < rank` or `-2 * rank <= pad_axis <= -rank - 2` (the doubly-resolved negative axes). The padded axis (`PaddedAxis`) then has extent `instances` and every other axis keeps its extent |
| Padding.DoublyNegativeAxis | official/vision/beta/projects/centernet/ops/preprocess_ops.py:236-247 | a (2, 3) tensor padded to 4 along `pad_axis` -4 has shape (4, 3); along -3 it fails |
| Padding.PadAlongAt | official/vision/beta/projects/centernet/ops/preprocess_ops.py:239-246 | an element whose index along the axis is below the input's extent is the input's element; every other element is `pad_value` |
| Padding.PadMaxInstancesAt | official/vision/beta/projects/centernet/ops/preprocess_ops.py:236-247 | the same, for the axis `PaddedAxis` resolves `pad_axis` to |
| Padding.TakeAll | official/vision/beta/projects/centernet/ops/preprocess_ops.py:242 | splitting off all slices keeps the tensor |
| Padding.ConcatEmpty | official/vision/beta/projects/centernet/ops/preprocess_ops.py:246 | concatenating an empty tensor changes nothing |
| Padding.PadMaxInstancesExact | official/vision/beta/projects/centernet/ops/preprocess_ops.py:236-247 | a tensor whose pad axis already has extent `instances` comes back unchanged |
| Padding.PadMaxInstancesIdempotent | official/vision/beta/projects/centernet/ops/preprocess_ops.py:236-247 | padding twice with the same arguments is the same as padding once |
| ImageShape.GetImageShape | official/vision/beta/projects/centernet/ops/preprocess_ops.py:182-190 | a rank-4 shape gives (height, width) from extents 1 and 2; any other rank of at least 2 gives extents 0 and 1; rank below 2 fails |
| ImageShape.BatchedImageShape | official/vision/beta/projects/centernet/ops/preprocess_ops.py:182-190 | a batch of three-dimensional images reports the same height and width as one image |

## Left out

- `gaussian_radius` and `_smallest_positive_root` compute with floating-point square roots. They are not part of this model.
- `_gaussian_penalty` computes the kernel with floating-point `exp` and is not part of this model. `draw_gaussian` takes its (2r+1) x (2r+1) result as a parameter.
- `letter_box` works on floating-point offsets and calls box-format conversion and image resizing code. It is not part of this model.
- Heatmap.DrawGaussian: requires a centre inside the heatmap and a non-negative radius.
  - For a centre far outside the heatmap, the slice bounds `radius + bottom` or `radius + right` become negative. Python slicing then counts them from the end of the kernel.
  - That behaviour is not modelled.
- The blob is taken after its cast to 32-bit integers. The truncation of fractional coordinates is not modelled.
- Heatmap.ScatterUpdate: duplicate indices are resolved as last-write-wins. `draw_gaussian` never produces duplicates (see `StampDistinct`).
- `dtype`: every heatmap holds mathematical reals. Integer or reduced-precision dtypes are not modelled.
- `tf.function` tracing, device placement and tensor dtypes are not modelled.
- `LARGE_NUM` (line 19) is not used by any function of this file; it is not modelled.
- Padding.PadMaxInstances: `instances` is a natural number.
  - With a negative `instances`, the source asks `tf.split` for a negative first part, which TensorFlow rejects.
  - That failure is not modelled.
- Heatmap.DrawGaussian: requires `0 <= obj_class < channels`.
  - The source does not check the class. `tf.tensor_scatter_nd_update` then raises on CPU and drops the out-of-range writes on GPU.
  - Neither behaviour is modelled.
- Heatmap.ClipMargins: the source computes `width - x`, `radius + 1`, `y + bottom` and `2 * radius + 1` in 32-bit integers after the cast, and these can overflow. The model computes with unbounded integers.
- CartesianProduct.CartesianProductOf: the default `repeat=1` is not modelled; the argument is always given.
- Heatmap.DrawGaussian: the default `scaling_factor=1` is not modelled; the argument is always given.
- Padding.PadMaxInstances: the defaults `pad_value=0` and `pad_axis=0` are not modelled; the arguments are always given.
- CartesianProduct.CartesianProductOf: returns `None` when `tensors * repeat` is empty.
  - The source then reshapes an empty stack to `(-1, 0)`, where the `-1` extent cannot be inferred from zero elements. The model takes that call to fail.
  - The itertools product the docstring names would give one empty row instead, which `Product` also gives (`EmptyArguments`). A TensorFlow build whose reshape returns such a row is not modelled.
- Tensors in `CartesianProduct` hold values of any type. The stacking and transposing of the `tf.meshgrid` output is modelled by its result, the row-major table of combinations, not step by step.
