# Justified-row thumbnail layout of react-grid-gallery, in Dafny

This project models the layout core of the `Gallery` component in `src/Gallery.js`.

Given the thumbnails' intrinsic sizes, a target row height and the container width, the component does four things:

- It scales every thumbnail to the row height (`setThumbScale`).
- It takes images greedily from the front of the list until the accumulated width, margins included, reaches the container width (`buildImageRow`).
- It spreads the overshoot of a full row over the row's images (`calculateCutOff`). Each image is drawn narrower and shifted left by half its cut.
- It repeats this until no image is left, then flattens the rows back into one list (`renderThumbs`).

The project also models the selection toggle `onToggleSelected`.

Modules, one per stage, each in its own file:

- `Numbers` (`numbers.dfy`): sums, absolute value, and the uniqueness of quotient and remainder.
- `Thumbs` (`thumbs.dfy`): the entities (`Image`, `ScaledImage`, `Thumbnail`), the default row height and margin, `setThumbScale`, and the accumulated row length.
- `CutOff` (`cutoff.dfy`): `calculateCutOff`. Its two loops are a method. That method is proved against a closed-form specification: a proportional, rounded-down first pass (`FirstPass`), then the remainder loop in closed form (`Distribute`).
- `RowBuilder` (`rowbuilder.dfy`): `buildImageRow`. The greedy loop is specified by `RowSize` and the layout by `LayRow`.
- `Render` (`render.dfy`): `renderThumbs`. The row loop is specified by `Rows` and the final loop by `Flatten`.
- `Selection` (`selection.dfy`): `onToggleSelected`, specified by `Toggled`.

The source works by mutation. Here, every stage works on values:

- `buildImageRow` consumes the caller's array with `shift`. Here it returns the images it did not take as `rest`.
- The source writes `scaletwidth`, `vwidth` and `marginLeft` onto the image objects. Here fresh `ScaledImage` and `Thumbnail` records are built.
- The source scales the images and lays out a row inside `renderThumbs` and `buildImageRow`. Here the scaling loop, the row loop and the flattening loop keep that shape. The second half of `buildImageRow` (the two layout loops) is the method `LayOut`. `BuildImageRow` calls it.
- The floating-point divisions `thumbnailWidth / thumbnailHeight` and `scaletwidth / len`, followed by `Math.floor`, become exact integer floor divisions: `(rowHeight * w) / h` and `(scaletwidth * delta) / len`.

The remainder loop does not always cut exactly `delta` pixels:

- One might expect the remainder loop to stop once the total cut reaches `delta`, so that a full row is drawn exactly as wide as the container.
- Within a pass, the code's loop breaks only once its counter has gone *below* zero (`src/Gallery.js:131`). It ends with the counter at zero only when a pass finishes exactly (`src/Gallery.js:127`). So whenever the leftover after the first pass is not a multiple of the row length, it cuts `delta + 1` pixels; when it is a multiple, it cuts exactly `delta`.
- The model states the bound the code achieves. `CutOff.TotalCut` proves the total cut is `delta` or `delta + 1`. `RowBuilder.RowWidthConserved` proves a full row is drawn to the container width or one pixel less.
- `CutOff.OneExtraPixelExample` and `RowBuilder.OneExtraPixelRowExample` exhibit the extra pixel on three 100-pixel images in a 250-pixel container.

## Model

| member | source | states |
|---|---|---|
| Thumbs.SetThumbScale | src/Gallery.js:167-171 | the scaled width is the floor of rowHeight·w/h: the largest whole width whose ratio to the row height does not exceed the image's; it is not negative for a non-negative width and row height; the image is kept |
| Thumbs.ScaleAll | src/Gallery.js:177-180 | the scaling loop yields one scaled image per input image, in order, each made from that image; widths are not negative for a non-negative row height and image width |
| Thumbs.RowLen | src/Gallery.js:139-145 | the accumulated row length is not negative when the margin and the scaled widths are not |
| Thumbs.RowLenIsSum | src/Gallery.js:139-145 | the accumulated row length is the sum of the scaled widths plus two margins per image |
| CutOff.FirstPass | src/Gallery.js:117-124 | the first loop gives exactly one cutoff per image of the row |
| CutOff.FirstPassIsFloor | src/Gallery.js:119-123 | every first-pass cutoff is the floor of scaletwidth·delta/len (bounded on both sides), and is not negative when the width and the overshoot are not |
| CutOff.FirstPassScaledBound | src/Gallery.js:117-124 | len times the sum of the first-pass cutoffs is at most delta times the row's accumulated length, with non-negative margins |
| CutOff.FirstPassWithinDelta | src/Gallery.js:117-126 | when len is the row's accumulated length, the first pass never cuts more than delta, so the remainder loop starts from a leftover of zero or more |
| CutOff.Leftover | src/Gallery.js:126 | the leftover after the first pass is at most the overshoot for a non-negative overshoot and non-negative widths |
| CutOff.Distribute | src/Gallery.js:126-133 | the remainder loop's closed form yields one cutoff per image |
| CutOff.DistributeFair | src/Gallery.js:127-133 | the remainder loop never lowers a cutoff, and hands out pixels from the first image on: an earlier image gets no fewer extra pixels than a later one and at most one more |
| CutOff.CutOffsNotBelowFirstPass | src/Gallery.js:116-135 | calculateCutOff returns one cutoff per image, none below its first-pass share, none negative for an overshooting row of non-negative widths |
| CutOff.CutOffs | src/Gallery.js:116-135 | calculateCutOff yields exactly one cutoff per image of the row |
| CutOff.DistributeFullPasses | src/Gallery.js:127-133 | a leftover that is a whole number of passes raises every cutoff by that number of passes |
| CutOff.DistributeBreak | src/Gallery.js:128-131 | a leftover of p passes plus i (0 < i < n) raises every cutoff by p and the first i + 1 by one more: the pass breaks one image after the counter reaches zero |
| CutOff.CalculateCutOff | src/Gallery.js:116-135 | the method (both loops over the local cutoff list, the remainder loop terminating by its counter) returns exactly the closed-form cutoffs |
| CutOff.SumSpread | src/Gallery.js:127-133 | raising every cutoff by p and the first k by one more adds p·n + k to the total |
| CutOff.SumDistributeFull | src/Gallery.js:127-133 | after whole passes only, the remainder loop has added exactly the leftover |
| CutOff.SumDistributeBreak | src/Gallery.js:127-133 | when a pass broke off, the remainder loop has added the leftover plus one pixel |
| CutOff.DistributeTotal | src/Gallery.js:126-133 | the remainder loop adds exactly the leftover when it is a multiple of the row length (zero included), and one pixel more otherwise |
| CutOff.TotalCut | src/Gallery.js:116-135 | the cutoffs add up to delta exactly when the first-pass leftover is a multiple of the row length, and to delta + 1 otherwise; so always delta ≤ total ≤ delta + 1 |
| CutOff.OneExtraPixelExample | src/Gallery.js:126-133 | three 100-pixel images, no margin, container 250: first pass 16 each, final cutoffs 17 each (51 for an overshoot of 50) |
| RowBuilder.RowSize | src/Gallery.js:141-145 | the greedy loop's row size: every shorter prefix stays below the container width, and the loop stops when the list is exhausted or the accumulated length reaches the container width |
| RowBuilder.RowSizeUnique | src/Gallery.js:141-145 | the greedy loop's stopping rule determines the row size uniquely |
| RowBuilder.LayRow | src/Gallery.js:147-163 | one thumbnail per image, in order; each image's left offset is minus half (rounded down) of what was cut from it; a row that does not overshoot keeps the scaled widths and no offset |
| RowBuilder.LayRowOnlyShrinks | src/Gallery.js:148-156 | with non-negative scaled widths, laying a row out never widens an image |
| RowBuilder.VisibleWidthAfterCuts | src/Gallery.js:150-155 | cutting the images takes the sum of the cutoffs off the row's drawn width |
| RowBuilder.VisibleWidthUncut | src/Gallery.js:157-163 | a row laid out without cuts is drawn at its accumulated length |
| RowBuilder.RowWidthConserved | src/Gallery.js:147-156 | an overshooting row is drawn to exactly the container width when the first-pass leftover is a multiple of the row length, and one pixel narrower otherwise |
| RowBuilder.RowFillsContainer | src/Gallery.js:141-163 | no laid-out row is drawn wider than the container; a row that reached the container width fills it to within one pixel; a shorter row is drawn at its accumulated length |
| RowBuilder.BuildImageRow | src/Gallery.js:137-165 | takes a prefix of the images, non-empty for a non-empty list and a positive width, and returns the rest; every shorter prefix is below the container width and, if images remain, the row reached it; the row is the greedy row size, and the thumbnails are the layout of that prefix, in order |
| RowBuilder.LayOut | src/Gallery.js:147-164 | the two layout loops produce the layout of the images taken, given their accumulated length |
| RowBuilder.SingleWideImageExample | src/Gallery.js:147-156 | a single 1000-pixel image in a 300-pixel container, no margin, is drawn 300 wide with offset -350 |
| RowBuilder.ExactFitExample | src/Gallery.js:147-156 | three 100-pixel images in a 270-pixel container, no margin, are cut 10 each and fill the container exactly |
| RowBuilder.OneExtraPixelRowExample | src/Gallery.js:126-156 | three 100-pixel images in a 250-pixel container, no margin, are drawn 249 wide in total |
| Render.Rows | src/Gallery.js:183-186 | the row loop produces no rows exactly when there are no images |
| Render.Flatten | src/Gallery.js:188-193 | the flattened list is empty exactly when every row is empty |
| Render.RowsPreserveOrder | src/Gallery.js:183-193 | the rows, flattened, hold exactly the input images in their original order and count |
| Render.RowsAreGreedy | src/Gallery.js:184-186 | every row is non-empty, is the layout of its own images, and is below the container width without its last image; every row but the last reached the container width |
| Render.RowsAreJustified | src/Gallery.js:184-186 | with non-negative margins, no row is drawn wider than the container and every row but the last fills it to within one pixel |
| Render.RenderKeepsEveryImage | src/Gallery.js:177-194 | rendering yields one thumbnail per image, in input order, each made from that image scaled to the row height |
| Render.FlattenRows | src/Gallery.js:188-193 | the nested flattening loop pushes every row's thumbnails in order |
| Render.RenderThumbs | src/Gallery.js:173-195 | nothing when the images are absent or the container width is 0; otherwise the loops terminate and return the flattened greedy rows of the scaled images: one thumbnail per input image, in order |
| Selection.IndexOf | src/Gallery.js:97 | indexOf is -1 exactly when the index is not selected; otherwise it is the position of the first occurrence |
| Selection.RemoveFirst | src/Gallery.js:102 | removing the first occurrence shortens the list by one and removes exactly one copy of the index |
| Selection.Toggled | src/Gallery.js:98-102 | toggling a selected index removes exactly one copy of it and shortens the list by one; toggling an unselected index adds exactly one copy and lengthens the list by one |
| Selection.SpliceIsRemoveFirst | src/Gallery.js:97-102 | splicing one element out at indexOf's answer removes the first occurrence |
| Selection.DistinctSplice | src/Gallery.js:102 | splicing one element out of a list without duplicates leaves a list without duplicates that lacks that element |
| Selection.RemoveFirstOfAppended | src/Gallery.js:100-102 | removing an index just pushed onto a list that lacked it restores the list |
| Selection.ToggleTwice | src/Gallery.js:95-106 | toggling an index that was not selected twice restores the original list; in a duplicate-free selection, toggling twice keeps the same indices |
| Selection.ToggleFlipsMembership | src/Gallery.js:95-106 | in a duplicate-free selection, toggling flips the toggled index's membership, keeps the list duplicate-free, and leaves every other index as it was |
| Selection.OnToggleSelected | src/Gallery.js:95-106 | the new selection is the old one with the index appended when absent, or its first occurrence removed when present; the old list is a value and is not changed |

## Left out

- React lifecycle and state plumbing are not modelled: the constructor, `componentWillReceiveProps`, the resize listener, and the container measurement through the ref. They are framework and DOM I/O. The container width is a parameter here.
- Rendering is not modelled: `render`, the JSX tree, the `Image` and `Lightbox` components, and the PropTypes. They are UI and foreign libraries. Only the defaults `rowHeight = 180` and `margin = 2` are kept, as `Thumbs.DefaultRowHeight` and `Thumbs.DefaultMargin`.
- The lightbox handlers (open, close, previous, next, click) and `getOnClickThumbnailFunc` are not modelled. They are thin state updates and a choice among caller-supplied callbacks.
- `onToggleSelected` calls `event.preventDefault()` and then the caller's `onSelectedImagesChange`. Neither is modelled; `Selection.OnToggleSelected` returns the list it would hand to the callback.
- Every number is a whole number here: the row height, the margin, the thumbnail sizes and the container width are `int`. The source takes them as plain JavaScript numbers. With a fractional margin, `imgMargin`, `len`, `delta` and `stillToCutOff` become fractional. The remainder loop then adds the leftover rounded up, never the leftover plus one: a leftover of 2.5 over three images gets 3 pixels. So `CutOff.TotalCut`'s "delta + 1 when not a multiple" applies only to whole-number inputs.
- Floating-point rounding is not modelled. Values where the source's float division followed by `Math.floor` differs from exact floor division at a rounding boundary are not captured.
- Aliasing is not modelled:
  - `slice` in `renderThumbs` is shallow, so the source writes `scaletwidth`, `vwidth` and `marginLeft` onto the caller's image objects. The model builds fresh records.
  - `buildImageRow`'s in-place `shift` on the caller's array is an out-parameter `rest` here.
  - So the model does not capture that the stored images carry the layout fields afterwards.
  - Nor does it capture an image object that occurs twice in `images`. The source writes `vwidth` and `marginLeft` (`src/Gallery.js:153-154`, `160-161`) onto that one object, so both entries of the returned list show the layout written last. The model gives each position its own `Thumbnail`.
- `for ... in` iterates over string keys in the source. The model iterates the indices in order, which is what those loops do on dense arrays.
- Thumbs.SetThumbScale requires a positive thumbnail height. The source divides by it and would produce `Infinity` or `NaN` for a zero height; non-numeric widths are not modelled.
- RowBuilder.BuildImageRow and Render.RenderThumbs require a container width of at least 0. For a negative width the source's row loop takes no image and repeats forever.
- Render.RowsAreJustified and RowBuilder.RowWidthConserved are stated for non-negative margins. With a negative margin the first pass can cut more than the overshoot, and the width accounting does not hold.
- The drawn width `vwidth` is not bounded below. When the margins are large compared with the images, the first pass leaves most of the overshoot to the remainder loop. The loop spreads it evenly, so an image can be cut by more than its own width. The model reproduces this and proves no lower bound.
