/**
 * `get_image_shape`: the height and width of an image given as
 * (height, width, channels) or as a batch (batch, height, width, channels).
 */
module ImageShape {
  import opened Optional

  /**
   * Height and width from the image's shape. A rank-4 shape is a batch and
   * its height and width are the second and third extents; any other rank
   * reads the first two. A shape of rank below 2 has no second extent to
   * read, which is an error in the source: `None`.
   */
  function GetImageShape(shape: seq<nat>): (r: Option<(nat, nat)>)
    ensures r.Some? <==> |shape| >= 2
    ensures r.Some? ==> var (height, width) := r.value;
      var at := if |shape| == 4 then 1 else 0;
      height == shape[at] && width == shape[at + 1]
  {
    if |shape| == 4 then Some((shape[1], shape[2]))
    else if |shape| >= 2 then Some((shape[0], shape[1]))
    else None
  }

  /** Batching three-dimensional images does not change the height and width reported. */
  lemma BatchedImageShape(batch: nat, shape: seq<nat>)
    requires |shape| == 3
    ensures GetImageShape([batch] + shape) == GetImageShape(shape) == Some((shape[0], shape[1]))
  {
    assert ([batch] + shape)[1..3] == shape[..2];
  }
}
