/**
 * `pad_max_instances`: make the extent of one axis of a tensor exactly
 * `instances`, cutting off the entries beyond it or appending slices filled
 * with a pad value.
 *
 * A tensor is a nested sequence together with its shape; the shape is kept
 * beside the data because a zero extent hides the extents below it.
 */
module Padding {
  import opened Optional
  import opened MinMax

  /** A nested sequence: a scalar, or a sequence of sub-tensors one rank lower. */
  datatype Nd<T> = Leaf(value: T) | Node(items: seq<Nd<T>>)

  /** `t` is a rectangular nesting with the extents `shape`, outermost first. */
  predicate HasShape<T>(t: Nd<T>, shape: seq<nat>)
    decreases |shape|
  {
    if |shape| == 0 then t.Leaf?
    else
      && t.Node?
      && |t.items| == shape[0]
      && forall i :: 0 <= i < |t.items| ==> HasShape(t.items[i], shape[1..])
  }

  /** `idx` addresses one element of a tensor of shape `shape`. */
  predicate IsIndex(idx: seq<int>, shape: seq<nat>)
  {
    |idx| == |shape| && forall d :: 0 <= d < |idx| ==> 0 <= idx[d] < shape[d]
  }

  /** The element at `idx`. */
  function Get<T>(t: Nd<T>, shape: seq<nat>, idx: seq<int>): T
    requires HasShape(t, shape) && IsIndex(idx, shape)
    decreases |shape|
  {
    if |shape| == 0 then t.value
    else
      assert IsIndex(idx[1..], shape[1..]);
      Get(t.items[idx[0]], shape[1..], idx[1..])
  }

  /** A tensor and its shape, as `tf.shape` reports it. */
  datatype Tensor<T> = Tensor(shape: seq<nat>, data: Nd<T>)
  {
    predicate Valid()
    {
      HasShape(data, shape)
    }
  }

  // ---------------------------------------------------------------------
  // The three tensor operations pad_max_instances is built from

  /** `tf.fill(shape, v)`: every element is `v`. */
  function Fill<T>(shape: seq<nat>, v: T): (t: Nd<T>)
    ensures HasShape(t, shape)
    decreases |shape|
  {
    if |shape| == 0 then Leaf(v)
    else Node(seq(shape[0], _ => Fill(shape[1..], v)))
  }

  /** The first `n` slices along `axis`: the first part of `tf.split(t, [n, -1], axis)`. */
  function Take<T>(t: Nd<T>, shape: seq<nat>, axis: nat, n: nat): (r: Nd<T>)
    requires HasShape(t, shape) && axis < |shape| && n <= shape[axis]
    ensures HasShape(r, shape[axis := n])
    decreases axis
  {
    if axis == 0 then
      assert shape[axis := n][1..] == shape[1..];
      Node(t.items[..n])
    else
      assert shape[axis := n][1..] == shape[1..][axis - 1 := n];
      Node(seq(shape[0], i requires 0 <= i < shape[0] => Take(t.items[i], shape[1..], axis - 1, n)))
  }

  /** Shapes `sa` and `sb` agree on every axis but `axis`. */
  predicate Joinable(sa: seq<nat>, sb: seq<nat>, axis: nat)
  {
    axis < |sa| == |sb| && forall d :: 0 <= d < |sa| && d != axis ==> sa[d] == sb[d]
  }

  /** `tf.concat([a, b], axis)`: the slices of `a` along `axis`, then those of `b`. */
  function Concat<T>(a: Nd<T>, b: Nd<T>, sa: seq<nat>, sb: seq<nat>, axis: nat): (r: Nd<T>)
    requires HasShape(a, sa) && HasShape(b, sb) && Joinable(sa, sb, axis)
    ensures HasShape(r, sa[axis := sa[axis] + sb[axis]])
    decreases axis
  {
    var s := sa[axis := sa[axis] + sb[axis]];
    if axis == 0 then
      assert s[1..] == sa[1..] == sb[1..];
      Node(a.items + b.items)
    else
      assert Joinable(sa[1..], sb[1..], axis - 1);
      assert s[1..] == sa[1..][axis - 1 := sa[axis] + sb[axis]];
      Node(seq(sa[0], i requires 0 <= i < sa[0] => Concat(a.items[i], b.items[i], sa[1..], sb[1..], axis - 1)))
  }

  // ---------------------------------------------------------------------
  // pad_max_instances

  /** `pad_max_instances` adds the rank to a negative `pad_axis`, once. */
  function ResolveAxis(rank: nat, axis: int): (r: int)
    ensures axis < 0 ==> r - axis == rank
    ensures 0 <= axis ==> r == axis
  {
    if axis < 0 then rank + axis else axis
  }

  /**
   * The axis a TensorFlow index or `axis` argument `a` names in a tensor of
   * rank `rank`: a negative `a` counts from the end; outside `[-rank, rank)`
   * it names none and TensorFlow fails.
   */
  function TfAxis(rank: nat, a: int): (r: Option<nat>)
    ensures r.Some? <==> -(rank as int) <= a < rank
    ensures r.Some? ==> r.value < rank && (r.value == a || r.value == a + rank)
  {
    if 0 <= a < rank then Some(a)
    else if -(rank as int) <= a < 0 then Some(rank + a)
    else None
  }

  /** The end (for `s[:i]`) or start (for `s[i:]`) Python uses for a slice bound `i` of a sequence of length `n`. */
  function SliceBound(n: nat, i: int): (b: nat)
    ensures b <= n
    ensures 0 <= i <= n ==> b == i
    ensures -(n as int) <= i < 0 ==> b == n + i
    ensures i < -(n as int) ==> b == 0
    ensures i > n ==> b == n
  {
    if i < 0 then (if n + i < 0 then 0 else n + i)
    else if i > n then n
    else i
  }

  /**
   * The axis `pad_max_instances` pads, if any. The rank is added to a
   * negative `pad_axis` once; the result is then used as a TensorFlow index,
   * which counts a negative value from the end once more. So `pad_axis` in
   * `[-2 * rank, -rank - 2]` pads axis `pad_axis + 2 * rank`. With
   * `pad_axis == -rank - 1` the shape built for the padding has twice the
   * rank (see `PadShapeSlices`) and the concatenation fails; beyond that the
   * index into the shape is out of range.
   */
  function PaddedAxis(rank: nat, padAxis: int): (r: Option<nat>)
    ensures var n := rank as int; r.Some? <==> -n <= padAxis < n || -2 * n <= padAxis <= -n - 2
    ensures var n := rank as int; r.Some? ==>
      && r.value < n
      && r.value == (if padAxis >= 0 then padAxis else if padAxis >= -n then padAxis + n else padAxis + 2 * n)
  {
    var first := ResolveAxis(rank, padAxis);
    if first == -1 then None else TfAxis(rank, first)
  }

  /**
   * The shape of the padding the source builds,
   * `shape[:pad_axis] + [pad] + shape[(pad_axis + 1):]` with the once-resolved
   * axis and Python's slice bounds, has the tensor's rank exactly when that
   * axis is not -1, and is then the shape with the padded axis set to `pad`.
   */
  lemma PadShapeSlices(shape: seq<nat>, padAxis: int, pad: nat)
    requires -|shape| <= ResolveAxis(|shape|, padAxis) < |shape|
    ensures var first := ResolveAxis(|shape|, padAxis);
      var nshape := shape[..SliceBound(|shape|, first)] + [pad] + shape[SliceBound(|shape|, first + 1)..];
      && (|nshape| == |shape| <==> first != -1)
      && (first != -1 ==> PaddedAxis(|shape|, padAxis).Some? && nshape == shape[PaddedAxis(|shape|, padAxis).value := pad])
  {
    var first := ResolveAxis(|shape|, padAxis);
    if first != -1 {
      var axis := PaddedAxis(|shape|, padAxis).value;
      assert SliceBound(|shape|, first) == axis && SliceBound(|shape|, first + 1) == axis + 1;
    }
  }

  /**
   * The body of `pad_max_instances` once the axis is resolved: keep the
   * first `min(instances, dim)` slices along `axis` and append
   * `max(instances - dim, 0)` slices of `padValue`.
   */
  function PadAlong<T>(t: Nd<T>, shape: seq<nat>, axis: nat, instances: nat, padValue: T): (r: Nd<T>)
    requires HasShape(t, shape) && axis < |shape|
    ensures HasShape(r, shape[axis := instances])
  {
    var dim := shape[axis];
    var take := Min(instances, dim);
    var front := Take(t, shape, axis, take);
    var pad := Max(instances - dim, 0);
    var nshape := shape[..axis] + [pad] + shape[axis + 1..];
    assert nshape == shape[axis := pad];
    var fshape := shape[axis := take];
    assert Joinable(fshape, nshape, axis);
    assert fshape[axis := take + pad] == shape[axis := instances];
    Concat(front, Fill(nshape, padValue), fshape, nshape, axis)
  }

  /**
   * `pad_max_instances(value, instances, pad_value, pad_axis)`; `None` where
   * the source fails because `pad_axis` names no axis (see `PaddedAxis`).
   */
  function PadMaxInstances<T>(value: Tensor<T>, instances: nat, padValue: T, padAxis: int): (r: Option<Tensor<T>>)
    requires value.Valid()
    ensures var rank := |value.shape|;
      r.Some? <==> -rank <= padAxis < rank || -2 * rank <= padAxis <= -rank - 2
    ensures r.Some? ==>
      var axis := PaddedAxis(|value.shape|, padAxis).value;
      && r.value.Valid()
      && |r.value.shape| == |value.shape|
      && r.value.shape[axis] == instances
      && forall d :: 0 <= d < |value.shape| && d != axis ==> r.value.shape[d] == value.shape[d]
  {
    match PaddedAxis(|value.shape|, padAxis)
    case None => None
    case Some(axis) => Some(Tensor(value.shape[axis := instances], PadAlong(value.data, value.shape, axis, instances, padValue)))
  }

  /**
   * A rank-2 tensor of shape (2, 3) padded to 4 along `pad_axis` -4: the
   * rank is added once to give -2, which TensorFlow reads as axis 0. With
   * `pad_axis` -3 the padding shape has rank 4 and the source fails.
   */
  lemma DoublyNegativeAxis<T>(value: Tensor<T>, padValue: T)
    requires value.Valid() && value.shape == [2, 3]
    ensures PadMaxInstances(value, 4, padValue, -4).Some?
    ensures PadMaxInstances(value, 4, padValue, -4).value.shape == [4, 3]
    ensures PadMaxInstances(value, 4, padValue, -3) == None
  {
    assert PaddedAxis(2, -4) == Some(0);
    assert [2, 3][0 := 4] == [4, 3];
  }

  // ---------------------------------------------------------------------
  // Elements of the results

  lemma {:induction false} FillGet<T>(shape: seq<nat>, v: T, idx: seq<int>)
    requires IsIndex(idx, shape)
    ensures Get(Fill(shape, v), shape, idx) == v
    decreases |shape|
  {
    if |shape| > 0 {
      assert IsIndex(idx[1..], shape[1..]);
      FillGet(shape[1..], v, idx[1..]);
    }
  }

  /** Taking slices keeps every element that is kept at its index. */
  lemma {:induction false} TakeGet<T>(t: Nd<T>, shape: seq<nat>, axis: nat, n: nat, idx: seq<int>)
    requires HasShape(t, shape) && axis < |shape| && n <= shape[axis]
    requires IsIndex(idx, shape[axis := n])
    ensures IsIndex(idx, shape)
    ensures Get(Take(t, shape, axis, n), shape[axis := n], idx) == Get(t, shape, idx)
    decreases axis
  {
    var s := shape[axis := n];
    assert IsIndex(idx[1..], s[1..]);
    if axis == 0 {
      assert s[1..] == shape[1..];
    } else {
      assert s[1..] == shape[1..][axis - 1 := n];
      TakeGet(t.items[idx[0]], shape[1..], axis - 1, n, idx[1..]);
    }
  }

  /**
   * An element of a concatenation comes from the first tensor when its
   * index along the axis is below that tensor's extent, and otherwise from
   * the second, shifted back by that extent.
   */
  lemma {:induction false} ConcatGet<T>(a: Nd<T>, b: Nd<T>, sa: seq<nat>, sb: seq<nat>, axis: nat, idx: seq<int>)
    requires HasShape(a, sa) && HasShape(b, sb) && Joinable(sa, sb, axis)
    requires IsIndex(idx, sa[axis := sa[axis] + sb[axis]])
    ensures idx[axis] < sa[axis] ==>
      IsIndex(idx, sa) && Get(Concat(a, b, sa, sb, axis), sa[axis := sa[axis] + sb[axis]], idx) == Get(a, sa, idx)
    ensures sa[axis] <= idx[axis] ==>
      var shifted := idx[axis := idx[axis] - sa[axis]];
      IsIndex(shifted, sb) && Get(Concat(a, b, sa, sb, axis), sa[axis := sa[axis] + sb[axis]], idx) == Get(b, sb, shifted)
    decreases axis
  {
    var s := sa[axis := sa[axis] + sb[axis]];
    var shifted := idx[axis := idx[axis] - sa[axis]];
    assert IsIndex(idx[1..], s[1..]);
    if axis == 0 {
      assert s[1..] == sa[1..] == sb[1..];
      assert shifted[1..] == idx[1..];
    } else {
      assert Joinable(sa[1..], sb[1..], axis - 1);
      assert s[1..] == sa[1..][axis - 1 := sa[axis] + sb[axis]];
      assert shifted[1..] == idx[1..][axis - 1 := idx[axis] - sa[axis]];
      ConcatGet(a.items[idx[0]], b.items[idx[0]], sa[1..], sb[1..], axis - 1, idx[1..]);
    }
  }

  /**
   * Element by element: an index below the original extent along the pad
   * axis reads the input, every other index reads the pad value.
   */
  lemma PadAlongAt<T>(t: Nd<T>, shape: seq<nat>, axis: nat, instances: nat, padValue: T, idx: seq<int>)
    requires HasShape(t, shape) && axis < |shape| && IsIndex(idx, shape[axis := instances])
    ensures idx[axis] < shape[axis] ==>
      IsIndex(idx, shape) && Get(PadAlong(t, shape, axis, instances, padValue), shape[axis := instances], idx) == Get(t, shape, idx)
    ensures shape[axis] <= idx[axis] ==>
      Get(PadAlong(t, shape, axis, instances, padValue), shape[axis := instances], idx) == padValue
  {
    var dim := shape[axis];
    var take := Min(instances, dim);
    var pad := Max(instances - dim, 0);
    var nshape := shape[..axis] + [pad] + shape[axis + 1..];
    assert nshape == shape[axis := pad];
    var fshape := shape[axis := take];
    assert Joinable(fshape, nshape, axis);
    assert fshape[axis := take + pad] == shape[axis := instances];
    ConcatGet(Take(t, shape, axis, take), Fill(nshape, padValue), fshape, nshape, axis, idx);
    if idx[axis] < dim {
      TakeGet(t, shape, axis, take, idx);
    } else {
      FillGet(nshape, padValue, idx[axis := idx[axis] - take]);
    }
  }

  /** `PadAlongAt` for the axis `pad_max_instances` pads. */
  lemma PadMaxInstancesAt<T>(value: Tensor<T>, instances: nat, padValue: T, padAxis: int, idx: seq<int>)
    requires value.Valid() && PadMaxInstances(value, instances, padValue, padAxis).Some?
    requires IsIndex(idx, PadMaxInstances(value, instances, padValue, padAxis).value.shape)
    ensures var axis := PaddedAxis(|value.shape|, padAxis).value;
      var p := PadMaxInstances(value, instances, padValue, padAxis).value;
      if idx[axis] < value.shape[axis]
      then IsIndex(idx, value.shape) && Get(p.data, p.shape, idx) == Get(value.data, value.shape, idx)
      else Get(p.data, p.shape, idx) == padValue
  {
    var axis := PaddedAxis(|value.shape|, padAxis).value;
    PadAlongAt(value.data, value.shape, axis, instances, padValue, idx);
  }

  // ---------------------------------------------------------------------
  // Padding to the extent a tensor already has changes nothing

  lemma {:induction false} TakeAll<T>(t: Nd<T>, shape: seq<nat>, axis: nat)
    requires HasShape(t, shape) && axis < |shape|
    ensures Take(t, shape, axis, shape[axis]) == t
    decreases axis
  {
    if axis == 0 {
      assert t.items[..shape[0]] == t.items;
    } else {
      forall i | 0 <= i < shape[0] ensures Take(t.items[i], shape[1..], axis - 1, shape[axis]) == t.items[i] {
        TakeAll(t.items[i], shape[1..], axis - 1);
      }
      assert Take(t, shape, axis, shape[axis]).items == t.items;
    }
  }

  lemma {:induction false} ConcatEmpty<T>(a: Nd<T>, b: Nd<T>, sa: seq<nat>, sb: seq<nat>, axis: nat)
    requires HasShape(a, sa) && HasShape(b, sb) && Joinable(sa, sb, axis) && sb[axis] == 0
    ensures Concat(a, b, sa, sb, axis) == a
    decreases axis
  {
    if axis == 0 {
      assert b.items == [];
      assert a.items + b.items == a.items;
    } else {
      assert Joinable(sa[1..], sb[1..], axis - 1);
      forall i | 0 <= i < sa[0] ensures Concat(a.items[i], b.items[i], sa[1..], sb[1..], axis - 1) == a.items[i] {
        ConcatEmpty(a.items[i], b.items[i], sa[1..], sb[1..], axis - 1);
      }
      assert Concat(a, b, sa, sb, axis).items == a.items;
    }
  }

  /** A tensor whose extent along the pad axis is already `instances` comes back unchanged. */
  lemma PadMaxInstancesExact<T>(value: Tensor<T>, instances: nat, padValue: T, padAxis: int)
    requires value.Valid() && PaddedAxis(|value.shape|, padAxis).Some?
    requires value.shape[PaddedAxis(|value.shape|, padAxis).value] == instances
    ensures PadMaxInstances(value, instances, padValue, padAxis) == Some(value)
  {
    var shape := value.shape;
    var axis := PaddedAxis(|shape|, padAxis).value;
    var nshape := shape[..axis] + [0] + shape[axis + 1..];
    assert Max(instances - shape[axis], 0) == 0 && Min(instances, shape[axis]) == shape[axis];
    assert nshape == shape[axis := 0];
    assert shape[axis := instances] == shape;
    TakeAll(value.data, shape, axis);
    ConcatEmpty(value.data, Fill(nshape, padValue), shape, nshape, axis);
  }

  /** Padding a second time with the same arguments changes nothing. */
  lemma PadMaxInstancesIdempotent<T>(value: Tensor<T>, instances: nat, padValue: T, padAxis: int)
    requires value.Valid() && PadMaxInstances(value, instances, padValue, padAxis).Some?
    ensures var p := PadMaxInstances(value, instances, padValue, padAxis).value;
      PadMaxInstances(p, instances, padValue, padAxis) == Some(p)
  {
    var p := PadMaxInstances(value, instances, padValue, padAxis).value;
    PadMaxInstancesExact(p, instances, padValue, padAxis);
  }
}
