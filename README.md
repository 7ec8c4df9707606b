# Sprite compositor and frame picker, modelled in Dafny

This project models two programs from one repository.

**`bichos/bichos.py`** builds a synthetic object-detection dataset. `generar_imagen`
starts from a white 640×640 BGR canvas (`fondo`). For each requested instance it
picks a sprite, scales and rotates it, and trims its transparent border
(`ajustar_transparencia`). It skips sprites that come out empty or larger than
the canvas. Otherwise it tries up to 100 random positions, first fit, against the
boxes already placed (`cajas`), using the half-open rectangle test `sobreponen`.
A sprite that finds room is pasted into the canvas: copied when it has no alpha
channel, alpha-blended when it has one. Then one YOLO annotation line
`clase_id x_centro y_centro ancho alto` is written and the box is appended to
`cajas`.

**`fotogramas/fotogramas.py`** is a Tk application, `VideoProcessorApp`. It keeps
every N-th frame of a video in `original_frames` and shows a thumbnail entry for
each in `thumbnail_items`. `reposition_thumbnails` lays the entries out on the
canvas in a flow grid. Clicking a thumbnail toggles its frame number in
`selected_frames`, and loading a new video clears all three containers.

Modules:

- `Geometry`: rectangles and `sobreponen`.
- `Images`: images as a colour grid plus an optional alpha grid, the bounding
  rectangle of the non-zero alpha values, crop and trim.
- `Compositor`: the canvas as an `array3` updated in place, the per-channel
  blend, and the annotation geometry with exact `real`s.
- `Placement`: the collision scan and the bounded first-fit search, with the
  random positions supplied as a sequence of draws.
- `Sample`: `generar_imagen` as an imperative loop (`GenerateImage`). It is
  proved equal to a reference definition (`Run`) of which instances are placed,
  where, and in which order, and of the final canvas colours (`Painted`).
- `Layout`: the integer arithmetic of the thumbnail grid.
- `Fotogramas`: the application state as a class `VideoProcessor` whose methods
  `ProcessVideo`, `RepositionThumbnails`, `OnCanvasClick` and `LoadVideo` update
  its fields.

Inputs that come from outside the modelled code are parameters:

- the sprite chosen by `random.choice`;
- the image produced by `cv2.resize` and `rotar_imagen`, which has an alpha
  channel exactly when the chosen sprite has one (both keep the channel count);
- the positions drawn by `random.randint`;
- the value typed into the N entry (`None` when it is not an integer);
- whether the video opened, and the frames it yields with their thumbnail heights;
- the canvas width reported by Tk, and the canvas item hit by a click.

Tk numbers canvas items with a counter that is never reset. The model keeps
that counter as the field `nextItemId`, so a click is resolved by item id as in
the code.

An image whose alpha is zero everywhere is returned whole by the trim
(`coords is None` skips the crop). So a fully transparent sprite that passes
the size filter and finds room is still placed and annotated, though pasting it
changes no pixel; `Sample.TransparentSpriteIsAnnotated` states this.

## Model

| member | source | states |
|---|---|---|
| Geometry.Overlaps | bichos/bichos.py:57-68 | `sobreponen`: false when one rectangle lies wholly left of, right of, above or below the other, true otherwise. Its meaning is stated by the lemmas below. |
| Geometry.IntervalsMeetIff | bichos/bichos.py:63-66 | The one-axis test (neither interval is wholly before the other) holds exactly when the half-open intervals `[a, a+wa)` and `[b, b+wb)` share a point. |
| Geometry.OverlapsIffIntervalsMeet | bichos/bichos.py:57-68 | `sobreponen` is true iff the x-intervals meet and the y-intervals meet, in both directions. |
| Geometry.OverlapsIffSharedPixel | bichos/bichos.py:57-68 | Two rectangles overlap iff some pixel lies in both. |
| Geometry.OverlapsSymmetric | bichos/bichos.py:57-68 | The overlap test does not depend on argument order. |
| Geometry.TouchingDoNotOverlap | bichos/bichos.py:63-67 | Rectangles that only share an edge (`x1 == x2 + w2`, etc.) do not overlap. |
| Images.FirstInkRow | bichos/bichos.py:50-52 | Returns the first row at or after `from` holding a non-zero alpha value, or `h` if none does; no row between `from` and the result has one. |
| Images.LastInkRow | bichos/bichos.py:50-52 | Returns the last row before `upto` holding a non-zero alpha value, or -1 if none does; no row after the result has one. |
| Images.FirstInkCol | bichos/bichos.py:50-52 | The same search for the first column with ink. |
| Images.LastInkCol | bichos/bichos.py:50-52 | The same search for the last column with ink. |
| Images.BoundingBoxFacts | bichos/bichos.py:50-52 | When some row has ink, the rectangle spanned by the first and last ink rows and columns holds every non-zero alpha value and has ink on each edge. |
| Images.BoundingBox | bichos/bichos.py:50-52 | `findNonZero` + `boundingRect`: `None` iff every alpha value is zero; otherwise the tightest rectangle holding every non-zero value, with ink on each of its four edges. |
| Images.InkRowAndCol | bichos/bichos.py:50 | A non-zero alpha value marks its row and its column as holding ink. |
| Images.CropGrid | bichos/bichos.py:53 | The slice `g[y:y+h, x:x+w]` has size `h`×`w`, and cell `(i, j)` is source cell `(y+i, x+j)`. |
| Images.Crop | bichos/bichos.py:53 | Cropping keeps the image well formed, gives it the rectangle's size, and keeps or omits alpha as the source does. |
| Images.CropIsCropAt | bichos/bichos.py:53 | A crop's colour and alpha values are the source's values at the rectangle's offset. |
| Images.Trim | bichos/bichos.py:46-54 | The result is well formed and no larger than the input. With no alpha, or all-zero alpha, the input comes back unchanged; otherwise the result is non-empty. |
| Images.TrimIsTightCrop | bichos/bichos.py:48-53 | With some non-zero alpha, the trim is the input at some offset `(x, y)` with values copied unchanged, holds every non-zero alpha value, and has one on each border row and column. |
| Images.BorderInkSurvivesCrop | bichos/bichos.py:52-53 | Cropping to the tight rectangle leaves ink on all four borders of the result. |
| Images.RowInkSurvivesCrop | bichos/bichos.py:52-53 | A row with ink inside a rectangle that holds all the ink still has ink after the crop. |
| Images.ColInkSurvivesCrop | bichos/bichos.py:52-53 | The same for a column. |
| Images.TightBoxOfBorderedIsWhole | bichos/bichos.py:50-52 | If all four borders of a grid hold ink, its bounding rectangle is the whole grid. |
| Images.CropWholeIsIdentity | bichos/bichos.py:53 | Cropping to the full image returns the image. |
| Images.TrimOfBorderedIsIdentity | bichos/bichos.py:46-54 | An image with alpha and ink on every border is its own trim. |
| Images.TrimIdempotent | bichos/bichos.py:46-54 | Trimming twice gives the same result as trimming once. |
| Compositor.BlendChannel | bichos/bichos.py:122-127 | The blended channel value is the canvas value when alpha is 0 and the sprite value when alpha is 255, and always lies between the two. |
| Compositor.BlendBounds | bichos/bichos.py:127 | The weighted sum `under·(255−a) + over·a` lies between 255 times the smaller and 255 times the larger input. |
| Compositor.Layer | bichos/bichos.py:121-129 | The value one channel of a canvas pixel takes under one sprite pixel: the sprite's colour without alpha, the blend with alpha. `LayerBoundaryCases` states its alpha 0 and 255 cases. |
| Compositor.LayerBoundaryCases | bichos/bichos.py:121-129 | Without alpha, a sprite pixel replaces the canvas value. With alpha 0 the canvas value is kept; with alpha 255 it is replaced. |
| Compositor.Paste | bichos/bichos.py:121-129 | Every canvas pixel inside `[y, y+h)×[x, x+w)` becomes the sprite pixel laid over its old value (copy or blend). Every pixel outside keeps its old value. |
| Compositor.Annotate | bichos/bichos.py:132-135 | `x_centro·640 = x + w/2`, `y_centro·640 = y + h/2`, `ancho·640 = w`, `alto·640 = h`, and the class id is kept. For a box inside the canvas, all four values lie in [0, 1]. |
| Compositor.AnnotationRoundTrip | bichos/bichos.py:131-140 | Decoding an exact annotation line gives back the placed box and class. |
| Placement.CollidesWithAny | bichos/bichos.py:113-117 | A box collides when it overlaps some box in `cajas`; `CheckCollision` is proved to compute exactly this. |
| Placement.CheckCollision | bichos/bichos.py:112-117 | `colision` is true iff the new box overlaps some box in `cajas`. |
| Placement.FirstFree | bichos/bichos.py:107-119 | The index of the first draw whose box collides with nothing, with every earlier draw colliding; or `None` when all draws collide. |
| Placement.FindPlacement | bichos/bichos.py:104-119 | Makes between 1 and 100 attempts. It takes exactly the first non-colliding candidate, after `index + 1` attempts, or gives up after all 100. An accepted box has the sprite's size, lies inside the canvas and overlaps no placed box. |
| Sample.Admissible | bichos/bichos.py:96-101 | The size filter: the trimmed sprite is kept only when `1 ≤ w ≤ 640` and `1 ≤ h ≤ 640`. |
| Sample.Iterations | bichos/bichos.py:77-79 | The number of loop iterations: `num_imagenes`, or none when there are no sprites (`if not imagenes: break`) or `num_imagenes ≤ 0`. |
| Sample.Step | bichos/bichos.py:95-146 | An instance adds one placement iff its trim passes the size filter and some draw is free; otherwise nothing changes. A new placement carries the chosen class, the trimmed image, a box of its size inside the canvas, and no collision. |
| Sample.StepKeepsInvariant | bichos/bichos.py:112-119 | Processing an instance keeps every box valid and the boxes pairwise non-overlapping. |
| Sample.Run | bichos/bichos.py:77-146 | For every sequence of requests, the placed boxes are valid, inside the canvas and pairwise non-overlapping. |
| Sample.RunExtends | bichos/bichos.py:140-146 | Placements are only appended. A shorter run's placements are a prefix of a longer run's, and each request adds at most one. |
| Sample.Painted | bichos/bichos.py:73-129 | The colour of a canvas channel after pasting the placed instances in order onto white. `PaintedOutsideIsWhite` and `PaintedInsideShowsSprite` state what it is. |
| Sample.PaintedOutsideIsWhite | bichos/bichos.py:73 | A canvas pixel covered by no placed box stays white (255). |
| Sample.PaintedInsideShowsSprite | bichos/bichos.py:121-129 | Boxes do not overlap, so a pixel inside the box of instance `k` shows that sprite laid over white. |
| Sample.TransparentSpriteIsAnnotated | bichos/bichos.py:51-54 | A sprite whose alpha is zero everywhere is kept whole by the trim. If it passes the size filter and finds room, it is still boxed and annotated, and pasting it changes no pixel. |
| Sample.PlaceInstance | bichos/bichos.py:95-146 | One loop iteration updates `cajas`, the annotation lines and the canvas exactly as `Step` says. |
| Sample.GenerateImage | bichos/bichos.py:71-146 | The canvas, `cajas` and the annotation lines are exactly those of `Run` on the requests used. There is one line per box, in the same order. The boxes lie in the canvas and are pairwise non-overlapping. With no sprites, nothing is placed. |
| Layout.Columns | fotogramas/fotogramas.py:148 | `cols ≥ 1`. `cols + 1` columns never fit the canvas width, and `cols` columns fit it unless `cols` is the minimum 1. |
| Layout.ColumnX | fotogramas/fotogramas.py:159 | Item `k` is at `x = (k mod cols)·(thumbnail_width + margin) + margin`. `FlowLayout` is proved to place items there. |
| Layout.RowMax | fotogramas/fotogramas.py:151-169 | The tallest height in a range: no height in the range exceeds it, one attains it, and an empty range gives 0. |
| Layout.RowY | fotogramas/fotogramas.py:149-157 | `current_row_y` of row `r`: the margin for row 0, then the previous row's `y` plus its tallest item plus the margin. |
| Layout.ThumbY | fotogramas/fotogramas.py:154-160 | Item `k` is at the `y` of its row `k // cols`. `RowPositions` states the row rules for it. |
| Layout.RowPositions | fotogramas/fotogramas.py:149-160 | The first row is at `y = margin`. Items of one row share `y`. The next row's `y` is this row's `y` plus its tallest item plus the margin. |
| Layout.CursorStart | fotogramas/fotogramas.py:149-151 | The loop's initial variables describe item 0 in column 0 of row 0. |
| Layout.CursorNextRow | fotogramas/fotogramas.py:154-157 | Wrapping after a full row moves to column 0 of the next row, one row height plus margin lower. |
| Layout.CursorPlace | fotogramas/fotogramas.py:159-170 | Item `k` gets `x = (k mod cols)·(thumbnail_width + margin) + margin` and its row's `y`; the row maximum and the column advance. |
| Layout.RowYBelow | fotogramas/fotogramas.py:156 | Every later row starts below an earlier row's tallest item plus the margin. |
| Layout.SameRowApart | fotogramas/fotogramas.py:159 | In one row, an earlier item's right edge lies at least a margin to the left of where a later one starts, and exactly a margin for neighbouring items. |
| Layout.ItemsInOrderApart | fotogramas/fotogramas.py:159-166 | With a positive margin, the rectangles of two items do not overlap. |
| Layout.LayoutDisjoint | fotogramas/fotogramas.py:159-166 | With a positive margin, no two thumbnail rectangles overlap. |
| Layout.LayoutFitsWidth | fotogramas/fotogramas.py:148-165 | When at least one column fits the canvas, every thumbnail lies within the canvas width. |
| Fotogramas.Toggle | fotogramas/fotogramas.py:243-249 | The clicked frame number switches membership and every other number keeps its membership. |
| Fotogramas.ToggleTwice | fotogramas/fotogramas.py:243-249 | Two clicks on the same thumbnail restore the selection. |
| Fotogramas.Sampled | fotogramas/fotogramas.py:100-110 | The kept frame numbers `i < n` are exactly those with `i % N == 0`, and they are in increasing order. |
| Fotogramas.SampledFrames | fotogramas/fotogramas.py:109-110 | The entries `original_frames[i] = frame` for the frames read with `i % N == 0`. |
| Fotogramas.NewThumbnails | fotogramas/fotogramas.py:113-132 | The entries appended for the kept frames, in frame order, at (0, 0), with rectangle id `firstId + 2j` and image id `firstId + 2j + 1` for the `j`-th. |
| Fotogramas.NewThumbnailsMatchFrames | fotogramas/fotogramas.py:109-133 | The appended entries are in increasing frame order. Their frame numbers are exactly the keys stored in `original_frames`, and each stored frame is the frame read. |
| Fotogramas.Hits | fotogramas/fotogramas.py:237 | The clicked item is this entry's image or rectangle: `item[0] in (thumb["img_id"], thumb["rect_id"])`. |
| Fotogramas.ClickTarget | fotogramas/fotogramas.py:235-241 | The first entry whose image or rectangle is the clicked item, or `None` when no entry's is. |
| Fotogramas.ClickTargetIsHitEntry | fotogramas/fotogramas.py:236-239 | Canvas ids are distinct and ordered, so the lookup finds entry `k` exactly when the clicked item is `k`'s image or rectangle. |
| Fotogramas.CanvasWidth | fotogramas/fotogramas.py:144-146 | The canvas width is `winfo_width()`, or `winfo_reqwidth()` when that is not positive. |
| Fotogramas.MovingKeepsFacts | fotogramas/fotogramas.py:162-163 | Moving entries changes neither their frame numbers, their heights nor their canvas ids. |
| Fotogramas.FlowLayout | fotogramas/fotogramas.py:149-170 | The loop moves every entry to the column and row the flow layout assigns, and changes nothing but positions. |
| Fotogramas.ReadKept | fotogramas/fotogramas.py:109-133 | Reading a kept frame stores it, appends its entry, and uses two fresh canvas ids. |
| Fotogramas.ReadSkipped | fotogramas/fotogramas.py:109-133 | Reading a frame that is not kept changes nothing. |
| Fotogramas.VideoProcessor.constructor | fotogramas/fotogramas.py:9-21 | Starts with no video, N = 10, empty kept frames, entries and selection, and the canvas id counter at 1. |
| Fotogramas.VideoProcessor.RepositionThumbnails | fotogramas/fotogramas.py:142-173 | Entries are placed by the flow layout with `max(1, width // (256 + 10))` columns, using `winfo_reqwidth` when `winfo_width` is not positive. No two thumbnail rectangles overlap, and only positions change. |
| Fotogramas.VideoProcessor.ReadFrames | fotogramas/fotogramas.py:100-133 | After reading the whole video, `original_frames` gains frame `i` exactly when `i % N == 0`. One entry per kept frame is appended in frame order, with fresh rectangle and image ids. |
| Fotogramas.VideoProcessor.ProcessVideo | fotogramas/fotogramas.py:86-140 | With N not a number, or N ≤ 0, nothing changes and the error is reported. If the video cannot be opened, only N is recorded. Otherwise the kept frames and entries are extended as in `ReadFrames` and everything is laid out again. The selection and the path are never touched, and the invariant is kept. |
| Fotogramas.VideoProcessor.AppendKeepsValid | fotogramas/fotogramas.py:110-132 | After appending, every entry's frame is stored, canvas ids stay ordered and distinct, and every selected frame still belongs to an entry. |
| Fotogramas.VideoProcessor.OnCanvasClick | fotogramas/fotogramas.py:226-251 | A click on the image or rectangle of an entry toggles that entry's frame number and leaves every other number's membership unchanged. A click on nothing, or on an item that is no entry's, changes nothing. |
| Fotogramas.VideoProcessor.LoadVideo | fotogramas/fotogramas.py:208-224 | A cancelled dialog changes nothing. Otherwise the path is recorded and the kept frames, entries and selection are emptied; N and the canvas id counter are kept. |

## Left out

- `rotar_imagen` and `cv2.resize`: floating-point geometry and OpenCV resampling. Their output image is a supplied input.
- Randomness (`random.choice`, `random.uniform`, `random.randint`): supplied as explicit choices and draws. No distribution is modelled.
- Compositor.BlendChannel: computes the blend exactly, as `floor((under·(255−a) + over·a) / 255)`. The code computes in float64 and truncates to uint8, and float rounding can differ by one for some `a`. The boundary cases `a = 0` and `a = 255` agree exactly.
- The `:.6f` formatting of annotation values: modelled as exact `real`s.
- File and directory I/O: reading sprites (`cargar_imagenes`), `generar_dataset` and its YAML file, writing lines and images, the `__main__` prompts, and `save_selected`'s disk writes.
- Images with channel counts other than 3 or 4: a grey image is not modelled.
- Only 8-bit images are modelled (`Images.Byte`). A 16-bit sprite read with `IMREAD_UNCHANGED` would wrap modulo 256 on the copy into the uint8 canvas, and would blend with `alpha/255 > 1`.
- The Tk, PIL and OpenCV plumbing of `fotogramas/fotogramas.py`: widgets, progress bar, button states, message boxes, mouse-wheel scrolling, the resize debounce, `scrollregion`, and the rectangle outline colours. The LANCZOS resize and its float proportional height are also left out; each thumbnail height is a supplied input.
- `find_closest` and the `"thumbnail"` tag test: the clicked item id is a supplied input, and items without the tag are not entries.
- Exceptions raised midway through a loop (a failing `cap.read` or Tk call): the model has only the error paths the code checks explicitly.
- `int()` parsing of the N entry: the parsed value, or `None` for text that is not an integer, is a supplied input.
