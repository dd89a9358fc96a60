/**
 * buildImageRow: take images from the front of the remaining list until the
 * accumulated length (scaled widths plus margins) reaches the container width,
 * then lay the row out, cutting its overshoot from the images' drawn widths.
 */
module RowBuilder {
  import opened Numbers
  import opened Thumbs
  import opened CutOff

  /**
   * How many images the greedy loop takes, searching from `k`: the first count at
   * which the list is exhausted or the accumulated length reaches the container width.
   */
  function RowSize(items: seq<ScaledImage>, containerWidth: int, margin: int, k: nat): (r: nat)
    requires k <= |items|
    ensures k <= r <= |items|
    ensures r == |items| || RowLen(items[..r], margin) >= containerWidth
    ensures forall j :: k <= j < r ==> RowLen(items[..j], margin) < containerWidth
    decreases |items| - k
  {
    if k == |items| || RowLen(items[..k], margin) >= containerWidth then k
    else RowSize(items, containerWidth, margin, k + 1)
  }

  /** The stopping rule of the greedy loop determines the row size uniquely. */
  lemma RowSizeUnique(items: seq<ScaledImage>, containerWidth: int, margin: int, k: nat)
    requires k <= |items|
    requires k == |items| || RowLen(items[..k], margin) >= containerWidth
    requires forall j :: 0 <= j < k ==> RowLen(items[..j], margin) < containerWidth
    ensures k == RowSize(items, containerWidth, margin, 0)
  {
  }

  /**
   * The thumbnails buildImageRow makes of the images it took. A row that
   * overshoots the container has each image's cutoff taken from its drawn width and
   * half of it (rounded down) as a negative left margin; any other row keeps the
   * scaled widths and no offset.
   */
  function LayRow(row: seq<ScaledImage>, containerWidth: int, margin: int): (r: seq<Thumbnail>)
    requires containerWidth >= 0
    ensures |r| == |row|
    ensures forall j :: 0 <= j < |row| ==>
      r[j].item == row[j] && r[j].marginLeft == -Abs((row[j].scaletwidth - r[j].vwidth) / 2)
    ensures RowLen(row, margin) <= containerWidth ==>
      forall j :: 0 <= j < |row| ==> r[j].vwidth == row[j].scaletwidth && r[j].marginLeft == 0
  {
    var len := RowLen(row, margin);
    var delta := len - containerWidth;
    if |row| > 0 && delta > 0 then
      var cutoff := CutOffs(row, len, delta);
      seq(|row|, j requires 0 <= j < |row| =>
        Thumbnail(row[j], row[j].scaletwidth - cutoff[j], -Abs(cutoff[j] / 2)))
    else
      seq(|row|, j requires 0 <= j < |row| => Thumbnail(row[j], row[j].scaletwidth, 0))
  }

  /**
   * Unfolding helper: the layout of a row that overshoots the container, image by
   * image, for the cutoffs already computed. It keeps LayOut and RowWidthConserved
   * from unfolding LayRow in a large proof context.
   */
  lemma LayRowCut(row: seq<ScaledImage>, containerWidth: int, margin: int, cutoff: seq<int>)
    requires containerWidth >= 0 && |row| > 0 && RowLen(row, margin) > containerWidth
    requires cutoff == CutOffs(row, RowLen(row, margin), RowLen(row, margin) - containerWidth)
    ensures forall j :: 0 <= j < |row| ==>
      LayRow(row, containerWidth, margin)[j] == Thumbnail(row[j], row[j].scaletwidth - cutoff[j], -Abs(cutoff[j] / 2))
  {
  }

  /** With no negative scaled widths, laying a row out never widens an image. */
  lemma LayRowOnlyShrinks(row: seq<ScaledImage>, containerWidth: int, margin: int)
    requires containerWidth >= 0
    requires forall j :: 0 <= j < |row| ==> row[j].scaletwidth >= 0
    ensures forall j :: 0 <= j < |row| ==>
      LayRow(row, containerWidth, margin)[j].vwidth <= row[j].scaletwidth
  {
    var len := RowLen(row, margin);
    var delta := len - containerWidth;
    if |row| > 0 && delta > 0 {
      DistributeFair(FirstPass(row, len, delta), Leftover(row, len, delta));
      FirstPassIsFloor(row, len, delta);
    }
  }

  /** Cutting `cuts` from the images' widths takes their sum off the row's width. */
  lemma {:induction false} VisibleWidthAfterCuts(laid: seq<Thumbnail>, row: seq<ScaledImage>, cuts: seq<int>, margin: int)
    requires |laid| == |row| == |cuts|
    requires forall j :: 0 <= j < |row| ==> laid[j].vwidth == row[j].scaletwidth - cuts[j]
    ensures VisibleWidth(laid, margin) == RowLen(row, margin) - Sum(cuts)
    decreases |row|
  {
    var n := |row|;
    if n > 0 {
      VisibleWidthAfterCuts(laid[..n - 1], row[..n - 1], cuts[..n - 1], margin);
    }
  }

  /**
   * A row that overshoots the container is laid out to the container width, or to
   * one pixel less: exactly the container width when the first pass's leftover is a
   * multiple of the row length, one pixel short otherwise.
   */
  lemma RowWidthConserved(row: seq<ScaledImage>, containerWidth: int, margin: int)
    requires containerWidth >= 0 && margin >= 0 && row != [] && RowLen(row, margin) > containerWidth
    ensures var len := RowLen(row, margin);
      VisibleWidth(LayRow(row, containerWidth, margin), margin)
        == containerWidth - (if Leftover(row, len, len - containerWidth) % |row| == 0 then 0 else 1)
  {
    var len := RowLen(row, margin);
    var delta := len - containerWidth;
    var cutoff := CutOffs(row, len, delta);
    FirstPassWithinDelta(row, len, delta, margin);
    TotalCut(row, len, delta);
    LayRowCut(row, containerWidth, margin, cutoff);
    VisibleWidthAfterCuts(LayRow(row, containerWidth, margin), row, cutoff, margin);
  }

  /** Drawing every image at its scaled width leaves the row at its accumulated length. */
  lemma {:induction false} VisibleWidthUncut(laid: seq<Thumbnail>, row: seq<ScaledImage>, margin: int)
    requires |laid| == |row|
    requires forall j :: 0 <= j < |row| ==> laid[j].vwidth == row[j].scaletwidth
    ensures VisibleWidth(laid, margin) == RowLen(row, margin)
    decreases |row|
  {
    var n := |row|;
    if n > 0 {
      VisibleWidthUncut(laid[..n - 1], row[..n - 1], margin);
    }
  }

  /**
   * A laid-out row never draws wider than the container; a row whose accumulated
   * length reached the container width fills it to within one pixel, and a shorter
   * row is drawn at its accumulated length.
   */
  lemma RowFillsContainer(row: seq<ScaledImage>, containerWidth: int, margin: int)
    requires containerWidth >= 0 && margin >= 0
    ensures var laid := LayRow(row, containerWidth, margin);
      && VisibleWidth(laid, margin) <= containerWidth
      && (RowLen(row, margin) >= containerWidth ==> VisibleWidth(laid, margin) >= containerWidth - 1)
      && (RowLen(row, margin) <= containerWidth ==> VisibleWidth(laid, margin) == RowLen(row, margin))
  {
    var laid := LayRow(row, containerWidth, margin);
    if RowLen(row, margin) > containerWidth {
      RowWidthConserved(row, containerWidth, margin);
    } else {
      VisibleWidthUncut(laid, row, margin);
    }
  }

  /**
   * buildImageRow(items, containerWidth): takes a prefix of `items` (returning the
   * rest, which the source leaves in the caller's array) and lays it out.
   */
  method BuildImageRow(items: seq<ScaledImage>, containerWidth: int, margin: int)
    returns (row: seq<Thumbnail>, rest: seq<ScaledImage>)
    requires containerWidth >= 0
    ensures |row| <= |items| && rest == items[|row|..]
    ensures forall j :: 0 <= j < |row| ==> row[j].item == items[j]
    ensures items != [] && containerWidth > 0 ==> row != []
    ensures forall j :: 0 <= j < |row| ==> RowLen(items[..j], margin) < containerWidth
    ensures rest != [] ==> RowLen(items[..|row|], margin) >= containerWidth
    ensures |row| == RowSize(items, containerWidth, margin, 0)
    ensures row == LayRow(items[..|row|], containerWidth, margin)
  {
    var picked: seq<ScaledImage> := [];
    var len := 0;
    var imgMargin := 2 * margin;
    rest := items;
    while |rest| > 0 && len < containerWidth
      invariant |picked| <= |items|
      invariant picked == items[..|picked|] && rest == items[|picked|..]
      invariant len == RowLen(picked, margin)
      invariant forall j :: 0 <= j < |picked| ==> RowLen(items[..j], margin) < containerWidth
    {
      var item := rest[0];
      rest := rest[1..];
      assert (picked + [item])[..|picked|] == picked;
      picked := picked + [item];
      len := len + (item.scaletwidth + imgMargin);
    }
    RowSizeUnique(items, containerWidth, margin, |picked|);

    row := LayOut(picked, len, containerWidth, margin);
  }

  /**
   * The second half of buildImageRow: the thumbnails of the images taken, given the
   * length accumulated for them. An overshooting row is cut by calculateCutOff.
   */
  method LayOut(picked: seq<ScaledImage>, len: int, containerWidth: int, margin: int)
    returns (row: seq<Thumbnail>)
    requires containerWidth >= 0 && len == RowLen(picked, margin)
    ensures row == LayRow(picked, containerWidth, margin)
  {
    var delta := len - containerWidth;
    row := [];
    if |picked| > 0 && delta > 0 {
      var cutoff := CalculateCutOff(len, delta, picked);
      for i := 0 to |picked|
        invariant |row| == i
        invariant forall j :: 0 <= j < i ==>
          row[j] == Thumbnail(picked[j], picked[j].scaletwidth - cutoff[j], -Abs(cutoff[j] / 2))
      {
        var pixelsToRemove := cutoff[i];
        row := row + [Thumbnail(picked[i], picked[i].scaletwidth - pixelsToRemove, -Abs(pixelsToRemove / 2))];
      }
      LayRowCut(picked, containerWidth, margin, cutoff);
    } else {
      for j := 0 to |picked|
        invariant |row| == j
        invariant forall k :: 0 <= k < j ==> row[k] == Thumbnail(picked[k], picked[k].scaletwidth, 0)
      {
        row := row + [Thumbnail(picked[j], picked[j].scaletwidth, 0)];
      }
    }
  }

  /** One 1000-pixel image in a 300-pixel container without margins absorbs the whole overshoot. */
  lemma SingleWideImageExample()
    ensures var img := ScaledImage(Image("a", 1000, 180), 1000);
      LayRow([img], 300, 0) == [Thumbnail(img, 300, -350)]
  {
    var img := ScaledImage(Image("a", 1000, 180), 1000);
    assert RowLen([img], 0) == 1000 by {
      assert [img][..0] == [];
    }
    assert FirstPass([img], 1000, 700) == [700];
    assert Sum([700]) == 700 by {
      assert [700][..0] == [];
    }
    assert CutOffs([img], 1000, 700) == [700];
  }

  /** Three 100-pixel images in a 270-pixel container without margins: 10 pixels cut from each, an exact fit. */
  lemma ExactFitExample()
    ensures var img := ScaledImage(Image("a", 100, 180), 100);
      && LayRow([img, img, img], 270, 0) == [Thumbnail(img, 90, -5), Thumbnail(img, 90, -5), Thumbnail(img, 90, -5)]
      && VisibleWidth(LayRow([img, img, img], 270, 0), 0) == 270
  {
    var img := ScaledImage(Image("a", 100, 180), 100);
    var row := [img, img, img];
    assert row[..2] == [img, img] && [img, img][..1] == [img] && [img][..0] == [];
    assert RowLen([img], 0) == 100;
    assert RowLen([img, img], 0) == 200;
    assert RowLen(row, 0) == 300;
    var first := [10, 10, 10];
    assert FirstPass(row, 300, 30) == first;
    assert first[..2] == [10, 10] && [10, 10][..1] == [10] && [10][..0] == [];
    assert Leftover(row, 300, 30) == 0;
    assert CutOffs(row, 300, 30) == first;
    LayRowCut(row, 270, 0, first);
    var t := Thumbnail(img, 90, -5);
    var laid := LayRow(row, 270, 0);
    assert laid == [t, t, t] by {
      assert Abs(10 / 2) == 5;
      assert forall j :: 0 <= j < 3 ==> laid[j] == t;
    }
    assert [t, t, t][..2] == [t, t] && [t, t][..1] == [t] && [t][..0] == [];
    assert VisibleWidth([t], 0) == 90;
    assert VisibleWidth([t, t], 0) == 180;
  }

  /**
   * Three 100-pixel images in a 250-pixel container without margins: the remainder
   * loop cuts 51 pixels for an overshoot of 50, and the row is drawn one pixel short.
   */
  lemma OneExtraPixelRowExample()
    ensures var img := ScaledImage(Image("a", 100, 180), 100);
      VisibleWidth(LayRow([img, img, img], 250, 0), 0) == 249
  {
    var img := ScaledImage(Image("a", 100, 180), 100);
    var row := [img, img, img];
    assert RowLen(row, 0) == 300 by {
      assert row[..2] == [img, img] && [img, img][..1] == [img] && [img][..0] == [];
      assert RowLen([img], 0) == 100;
      assert RowLen([img, img], 0) == 200;
    }
    assert Leftover(row, 300, 50) == 2 by {
      var first := [16, 16, 16];
      assert FirstPass(row, 300, 50) == first;
      assert first[..2] == [16, 16] && [16, 16][..1] == [16] && [16][..0] == [];
    }
    RowWidthConserved(row, 250, 0);
  }
}
