/**
 * renderThumbs: scale every image to the row height, cut the list into rows with
 * buildImageRow until no image is left, and return the rows' thumbnails in order.
 */
module Render {
  import opened Thumbs
  import opened RowBuilder

  /** The gallery's `images` state, which may be absent. */
  datatype Option<T> = None | Some(value: T)

  /** The rows concatenated, first row first. */
  function Flatten(rows: seq<seq<Thumbnail>>): (r: seq<Thumbnail>)
    ensures r == [] <==> forall i :: 0 <= i < |rows| ==> rows[i] == []
  {
    if rows == [] then [] else Flatten(rows[..|rows| - 1]) + rows[|rows| - 1]
  }

  /**
   * The rows the row loop of renderThumbs builds from `items`: each one is the
   * greedy prefix of what is left, laid out. With a positive container width every
   * row takes at least one image, so the loop ends.
   */
  function Rows(items: seq<ScaledImage>, containerWidth: int, margin: int): (rows: seq<seq<Thumbnail>>)
    requires containerWidth > 0
    ensures rows == [] <==> items == []
    decreases |items|
  {
    if items == [] then []
    else
      var k := RowSize(items, containerWidth, margin, 0);
      assert items[..0] == [];
      [LayRow(items[..k], containerWidth, margin)] + Rows(items[k..], containerWidth, margin)
  }

  /**
   * Unfolding helper for the row loop of RenderThumbs: one buildImageRow call peels
   * the first row off the rows of what is left.
   */
  lemma RowsStep(items: seq<ScaledImage>, containerWidth: int, margin: int, row: seq<Thumbnail>, rest: seq<ScaledImage>)
    requires containerWidth > 0 && items != []
    requires |row| == RowSize(items, containerWidth, margin, 0) && rest == items[|row|..]
    requires row == LayRow(items[..|row|], containerWidth, margin)
    ensures Rows(items, containerWidth, margin) == [row] + Rows(rest, containerWidth, margin)
  {
  }

  lemma {:induction false} FlattenAppend(a: seq<seq<Thumbnail>>, b: seq<seq<Thumbnail>>)
    ensures Flatten(a + b) == Flatten(a) + Flatten(b)
    decreases |b|
  {
    if b != [] {
      var n := |b|;
      assert (a + b)[..|a + b| - 1] == a + b[..n - 1];
      FlattenAppend(a, b[..n - 1]);
    } else {
      assert a + b == a;
    }
  }

  lemma ItemsAppend(a: seq<Thumbnail>, b: seq<Thumbnail>)
    ensures Items(a + b) == Items(a) + Items(b)
  {
  }

  /** The rows hold every image exactly once, in the order of the input. */
  lemma {:induction false} RowsPreserveOrder(items: seq<ScaledImage>, containerWidth: int, margin: int)
    requires containerWidth > 0
    ensures Items(Flatten(Rows(items, containerWidth, margin))) == items
    decreases |items|
  {
    if items != [] {
      var k, first, later := RowsHead(items, containerWidth, margin);
      ItemsOfFlattenCons(first, later);
      RowsPreserveOrder(items[k..], containerWidth, margin);
      assert items[..k] + items[k..] == items;
    }
  }

  /** The images of a row placed in front of other rows come first. */
  lemma ItemsOfFlattenCons(first: seq<Thumbnail>, later: seq<seq<Thumbnail>>)
    ensures Items(Flatten([first] + later)) == Items(first) + Items(Flatten(later))
  {
    FlattenAppend([first], later);
    assert Flatten([first]) == first by {
      assert [first][..0] == [];
    }
    ItemsAppend(first, Flatten(later));
  }

  /** Unfolding helper: the first row of a non-empty input and the rows of the rest. */
  lemma RowsHead(items: seq<ScaledImage>, containerWidth: int, margin: int)
    returns (k: nat, first: seq<Thumbnail>, later: seq<seq<Thumbnail>>)
    requires containerWidth > 0 && items != []
    ensures 0 < k <= |items|
    ensures Items(first) == items[..k]
    ensures later == Rows(items[k..], containerWidth, margin)
    ensures Rows(items, containerWidth, margin) == [first] + later
  {
    k := RowSize(items, containerWidth, margin, 0);
    assert items[..0] == [];
    first := LayRow(items[..k], containerWidth, margin);
    later := Rows(items[k..], containerWidth, margin);
  }

  /**
   * A row as buildImageRow takes it: not empty, the layout of its own images, and
   * below the container width without its last image.
   */
  predicate GreedyRow(row: seq<Thumbnail>, containerWidth: int, margin: int)
    requires containerWidth >= 0
  {
    && row != []
    && row == LayRow(Items(row), containerWidth, margin)
    && RowLen(Items(row)[..|row| - 1], margin) < containerWidth
  }

  /** Every row is a greedy row, and every row but the last reaches the container width. */
  predicate AllGreedy(rows: seq<seq<Thumbnail>>, containerWidth: int, margin: int)
    requires containerWidth >= 0
  {
    forall i :: 0 <= i < |rows| ==>
      && GreedyRow(rows[i], containerWidth, margin)
      && (i < |rows| - 1 ==> RowLen(Items(rows[i]), margin) >= containerWidth)
  }

  /** The rows renderThumbs builds are the greedy rows of the input. */
  lemma {:induction false} RowsAreGreedy(items: seq<ScaledImage>, containerWidth: int, margin: int)
    requires containerWidth > 0
    ensures AllGreedy(Rows(items, containerWidth, margin), containerWidth, margin)
    decreases |items|
  {
    var rows := Rows(items, containerWidth, margin);
    if items != [] {
      var k := RowSize(items, containerWidth, margin, 0);
      assert items[..0] == [];
      var first := LayRow(items[..k], containerWidth, margin);
      var later := Rows(items[k..], containerWidth, margin);
      assert rows == [first] + later;
      RowsAreGreedy(items[k..], containerWidth, margin);
      assert AllGreedy(later, containerWidth, margin);
      assert Items(first) == items[..k];
      assert GreedyRow(first, containerWidth, margin) by {
        assert items[..k][..k - 1] == items[..k - 1];
      }
      if later != [] {
        assert RowLen(Items(first), margin) >= containerWidth;
      }
      forall i | 0 <= i < |rows|
        ensures GreedyRow(rows[i], containerWidth, margin)
        ensures i < |rows| - 1 ==> RowLen(Items(rows[i]), margin) >= containerWidth
      {
        if i > 0 {
          assert rows[i] == later[i - 1];
          assert GreedyRow(later[i - 1], containerWidth, margin);
        }
      }
    }
  }

  /**
   * The rows are justified: none is drawn wider than the container, and every row
   * but the last fills it to within one pixel.
   */
  lemma RowsAreJustified(items: seq<ScaledImage>, containerWidth: int, margin: int)
    requires containerWidth > 0 && margin >= 0
    ensures var rows := Rows(items, containerWidth, margin);
      forall i :: 0 <= i < |rows| ==>
        && VisibleWidth(rows[i], margin) <= containerWidth
        && (i < |rows| - 1 ==> VisibleWidth(rows[i], margin) >= containerWidth - 1)
  {
    var rows := Rows(items, containerWidth, margin);
    RowsAreGreedy(items, containerWidth, margin);
    assert AllGreedy(rows, containerWidth, margin);
    forall i | 0 <= i < |rows|
      ensures VisibleWidth(rows[i], margin) <= containerWidth
      ensures i < |rows| - 1 ==> VisibleWidth(rows[i], margin) >= containerWidth - 1
    {
      assert GreedyRow(rows[i], containerWidth, margin);
      RowFillsContainer(Items(rows[i]), containerWidth, margin);
    }
  }

  /** Rendering yields one thumbnail per image, in input order, each of the image scaled. */
  lemma RenderKeepsEveryImage(images: seq<Image>, containerWidth: int, rowHeight: int, margin: int)
    requires containerWidth > 0
    requires forall j :: 0 <= j < |images| ==> images[j].thumbnailHeight > 0
    ensures var thumbs := Flatten(Rows(ScaleAll(images, rowHeight), containerWidth, margin));
      && |thumbs| == |images|
      && forall j :: 0 <= j < |thumbs| ==> thumbs[j].item == SetThumbScale(images[j], rowHeight)
  {
    var thumbs := Flatten(Rows(ScaleAll(images, rowHeight), containerWidth, margin));
    RowsPreserveOrder(ScaleAll(images, rowHeight), containerWidth, margin);
    assert forall j :: 0 <= j < |thumbs| ==> Items(thumbs)[j] == thumbs[j].item;
  }

  /**
   * renderThumbs(containerWidth): nothing without images or without width; otherwise
   * the thumbnails of every image, scaled to `rowHeight`, in input order, laid out row
   * by row. The source scales the image records in place; here the scaled copies are
   * built afresh.
   */
  method RenderThumbs(images: Option<seq<Image>>, containerWidth: int, rowHeight: int, margin: int)
    returns (thumbs: seq<Thumbnail>)
    requires containerWidth >= 0
    requires images.Some? && containerWidth != 0 ==>
      forall j :: 0 <= j < |images.value| ==> images.value[j].thumbnailHeight > 0
    ensures images.None? || containerWidth == 0 ==> thumbs == []
    ensures images.Some? && containerWidth > 0 ==>
      && thumbs == Flatten(Rows(ScaleAll(images.value, rowHeight), containerWidth, margin))
      && |thumbs| == |images.value|
      && forall j :: 0 <= j < |thumbs| ==> thumbs[j].item == SetThumbScale(images.value[j], rowHeight)
  {
    if images.None? {
      return [];
    }
    if containerWidth == 0 {
      return [];
    }

    var all := images.value;
    var scaled: seq<ScaledImage> := [];
    for t := 0 to |all|
      invariant scaled == ScaleAll(all[..t], rowHeight)
    {
      scaled := scaled + [SetThumbScale(all[t], rowHeight)];
    }
    assert all[..|all|] == all;

    var items := scaled;
    var rows: seq<seq<Thumbnail>> := [];
    while |items| > 0
      invariant rows + Rows(items, containerWidth, margin) == Rows(scaled, containerWidth, margin)
      decreases |items|
    {
      var row;
      ghost var before := items;
      row, items := BuildImageRow(items, containerWidth, margin);
      RowsStep(before, containerWidth, margin, row, items);
      rows := rows + [row];
    }
    assert rows == Rows(scaled, containerWidth, margin);

    thumbs := FlattenRows(rows);
    RenderKeepsEveryImage(all, containerWidth, rowHeight, margin);
  }

  /** The last loop of renderThumbs: every row's thumbnails pushed in order. */
  method FlattenRows(rows: seq<seq<Thumbnail>>) returns (thumbs: seq<Thumbnail>)
    ensures thumbs == Flatten(rows)
  {
    thumbs := [];
    for r := 0 to |rows|
      invariant thumbs == Flatten(rows[..r])
    {
      for i := 0 to |rows[r]|
        invariant thumbs == Flatten(rows[..r]) + rows[r][..i]
      {
        thumbs := thumbs + [rows[r][i]];
      }
      assert rows[..r + 1][..r] == rows[..r];
    }
    assert rows[..|rows|] == rows;
  }
}
