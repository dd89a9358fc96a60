/**
 * The gallery's data model: input images, images scaled to the row height, and the
 * laid-out thumbnails the row builder produces; plus the scaling step itself.
 */
module Thumbs {
  import opened Numbers

  /** Defaults of the gallery's `rowHeight` and `margin` properties. */
  const DefaultRowHeight: int := 180
  const DefaultMargin: int := 2

  /**
   * An input image: the intrinsic size of its thumbnail. `src` stands for the
   * metadata (source, thumbnail URL, caption) that is passed through untouched.
   */
  datatype Image = Image(src: string, thumbnailWidth: int, thumbnailHeight: int)

  /** An image with its width scaled to the target row height. */
  datatype ScaledImage = ScaledImage(image: Image, scaletwidth: int)

  /**
   * A laid-out thumbnail: the width it is drawn with after the row's overshoot has
   * been cut from it, and the (non-positive) left offset that re-centres it.
   */
  datatype Thumbnail = Thumbnail(item: ScaledImage, vwidth: int, marginLeft: int)

  /**
   * setThumbScale: the width at the target row height, rounded down, i.e. the
   * largest whole width whose aspect ratio does not exceed the image's.
   */
  function SetThumbScale(img: Image, rowHeight: int): (r: ScaledImage)
    requires img.thumbnailHeight > 0
    ensures r.image == img
    ensures r.scaletwidth * img.thumbnailHeight <= rowHeight * img.thumbnailWidth
    ensures rowHeight * img.thumbnailWidth < (r.scaletwidth + 1) * img.thumbnailHeight
    ensures rowHeight >= 0 && img.thumbnailWidth >= 0 ==> r.scaletwidth >= 0
  {
    ScaledImage(img, (rowHeight * img.thumbnailWidth) / img.thumbnailHeight)
  }

  /** Every image scaled, in order. */
  function ScaleAll(images: seq<Image>, rowHeight: int): (r: seq<ScaledImage>)
    requires forall j :: 0 <= j < |images| ==> images[j].thumbnailHeight > 0
    ensures |r| == |images|
    ensures forall j :: 0 <= j < |r| ==> r[j].image == images[j]
    ensures forall j :: 0 <= j < |r| ==>
      rowHeight >= 0 && images[j].thumbnailWidth >= 0 ==> r[j].scaletwidth >= 0
  {
    seq(|images|, j requires 0 <= j < |images| => SetThumbScale(images[j], rowHeight))
  }

  /**
   * The length the row builder accumulates for a row: each image's scaled width
   * plus the margin on both of its sides.
   */
  function RowLen(row: seq<ScaledImage>, margin: int): (r: int)
    ensures margin >= 0 && (forall j :: 0 <= j < |row| ==> row[j].scaletwidth >= 0) ==> r >= 0
  {
    if row == [] then 0 else RowLen(row[..|row| - 1], margin) + row[|row| - 1].scaletwidth + 2 * margin
  }

  /** The scaled widths of a row, in order. */
  function Widths(row: seq<ScaledImage>): (r: seq<int>)
    ensures |r| == |row|
  {
    seq(|row|, j requires 0 <= j < |row| => row[j].scaletwidth)
  }

  /** The accumulated length is the sum of the scaled widths plus two margins per image. */
  lemma {:induction false} RowLenIsSum(row: seq<ScaledImage>, margin: int)
    ensures RowLen(row, margin) == Sum(Widths(row)) + 2 * margin * |row|
    decreases |row|
  {
    var n := |row|;
    if n > 0 {
      RowLenIsSum(row[..n - 1], margin);
      assert Widths(row)[..n - 1] == Widths(row[..n - 1]);
      MulAdd(2 * margin, n - 1, 1);
    }
  }

  /** The width a laid-out row occupies: drawn widths plus margins. */
  function VisibleWidth(row: seq<Thumbnail>, margin: int): int
  {
    if row == [] then 0 else VisibleWidth(row[..|row| - 1], margin) + row[|row| - 1].vwidth + 2 * margin
  }

  /** The scaled images a row of thumbnails was laid out from, in order. */
  function Items(row: seq<Thumbnail>): seq<ScaledImage>
  {
    seq(|row|, j requires 0 <= j < |row| => row[j].item)
  }
}
