/**
 * The state of the frame picker `VideoProcessorApp` with the Tk widgets taken
 * away: the frames kept from the video, the thumbnail entries shown on the
 * canvas with their positions, and the set of selected frame numbers.  The
 * methods are `process_video`, `reposition_thumbnails`, `on_canvas_click` and
 * `load_video`; what they read from Tk and OpenCV is passed in as parameters.
 */
module Fotogramas {
  import opened Wrappers
  import opened Geometry
  import opened Layout

  /** The pixels of one decoded video frame, kept as they are read. */
  type Frame = seq<int>

  /** One successful `cap.read()`: the frame, and the height of its 256-pixel-wide thumbnail. */
  datatype ReadFrame = ReadFrame(frame: Frame, thumbHeight: nat)

  /** One dict of `thumbnail_items`: frame number, canvas item ids, position and height. */
  datatype Thumbnail = Thumbnail(frameNumber: int, imgId: int, rectId: int, x: int, y: int, height: nat)

  /** How `process_video` ends: normally, or with the error it reports. */
  datatype Outcome = Processed | NotANumber | NonPositiveInterval | CannotOpen

  /** Adds `f` to the set when it is absent, removes it when present. */
  function Toggle(s: set<int>, f: int): (r: set<int>)
    ensures f in r <==> f !in s
    ensures forall g :: g != f ==> (g in r <==> g in s)
  {
    if f in s then s - {f} else s + {f}
  }

  /** Two clicks on the same thumbnail restore the selection. */
  lemma ToggleTwice(s: set<int>, f: int)
    ensures Toggle(Toggle(s, f), f) == s
  {
  }

  predicate Increasing(xs: seq<int>)
  {
    forall a, b :: 0 <= a < b < |xs| ==> xs[a] < xs[b]
  }

  /** The frame numbers `i < n` that `process_video` keeps: those with `i % interval == 0`, in order. */
  function Sampled(n: nat, interval: int): (r: seq<int>)
    requires interval > 0
    ensures forall i :: i in r <==> 0 <= i < n && i % interval == 0
    ensures forall k :: 0 <= k < |r| ==> 0 <= r[k] < n
    ensures Increasing(r)
  {
    if n == 0 then []
    else Sampled(n - 1, interval) + (if (n - 1) % interval == 0 then [n - 1] else [])
  }

  /** The entries `original_frames[i] = frame` made for the first `upto` frames read. */
  function SampledFrames(video: seq<ReadFrame>, interval: int, upto: nat): (m: map<int, Frame>)
    requires interval > 0 && upto <= |video|
  {
    map i | 0 <= i < upto && i % interval == 0 :: video[i].frame
  }

  /**
   * The dicts appended to `thumbnail_items` for the first `upto` frames read:
   * one per kept frame, in frame order, at position (0, 0), with the rectangle
   * and image ids the canvas hands out from `firstId` on.
   */
  function NewThumbnails(video: seq<ReadFrame>, interval: int, upto: nat, firstId: int): (r: seq<Thumbnail>)
    requires interval > 0 && upto <= |video|
  {
    var frames := Sampled(upto, interval);
    seq(|frames|, j requires 0 <= j < |frames| =>
      Thumbnail(frames[j], firstId + 2 * j + 1, firstId + 2 * j, 0, 0, video[frames[j]].thumbHeight))
  }

  /**
   * The entries appended for a video are one per kept frame, in increasing
   * frame order, and their frame numbers are exactly the keys stored.
   */
  lemma NewThumbnailsMatchFrames(video: seq<ReadFrame>, interval: int, upto: nat, firstId: int)
    requires interval > 0 && upto <= |video|
    ensures var r := NewThumbnails(video, interval, upto, firstId);
            (forall a, b :: 0 <= a < b < |r| ==> r[a].frameNumber < r[b].frameNumber) &&
            (forall i :: i in SampledFrames(video, interval, upto) <==>
                           exists j :: 0 <= j < |r| && r[j].frameNumber == i) &&
            (forall i :: i in SampledFrames(video, interval, upto) ==> SampledFrames(video, interval, upto)[i] == video[i].frame)
  {
    var r := NewThumbnails(video, interval, upto, firstId);
    var frames := Sampled(upto, interval);
    forall i | i in SampledFrames(video, interval, upto)
      ensures exists j :: 0 <= j < |r| && r[j].frameNumber == i
    {
      assert i in frames;
      var j :| 0 <= j < |frames| && frames[j] == i;
      assert r[j].frameNumber == i;
    }
    forall j | 0 <= j < |r| ensures r[j].frameNumber in SampledFrames(video, interval, upto) {
      assert frames[j] in frames;
    }
  }

  function Heights(items: seq<Thumbnail>): (hs: seq<nat>)
    ensures |hs| == |items| && forall k :: 0 <= k < |items| ==> hs[k] == items[k].height
  {
    seq(|items|, k requires 0 <= k < |items| => items[k].height)
  }

  /** The entries with their positions forgotten. */
  function Unpositioned(items: seq<Thumbnail>): (r: seq<Thumbnail>)
    ensures |r| == |items| && forall k :: 0 <= k < |items| ==> r[k] == items[k].(x := 0, y := 0)
  {
    seq(|items|, k requires 0 <= k < |items| => items[k].(x := 0, y := 0))
  }

  /** Every entry sits where the flow layout with `cols` columns puts it. */
  ghost predicate LaidOut(items: seq<Thumbnail>, cols: int, thumbWidth: int, margin: int)
    requires cols >= 1
  {
    forall k :: 0 <= k < |items| ==>
      items[k].x == ColumnX(k, cols, thumbWidth, margin) && items[k].y == ThumbY(Heights(items), cols, margin, k)
  }

  /** The rectangle drawn for an entry. */
  function ItemRect(t: Thumbnail, thumbWidth: int): Rect
  {
    Rect(t.x, t.y, thumbWidth, t.height)
  }

  /** `canvas.winfo_width()`, or `winfo_reqwidth()` while the canvas is not yet mapped. */
  function CanvasWidth(winfoWidth: int, reqWidth: int): int
  {
    if winfoWidth <= 0 then reqWidth else winfoWidth
  }

  /** The canvas item `id` is this entry's image or rectangle. */
  predicate Hits(t: Thumbnail, id: int)
  {
    t.imgId == id || t.rectId == id
  }

  /** The first entry at or after `from` whose image or rectangle is canvas item `id`. */
  function ClickTarget(items: seq<Thumbnail>, id: int, from: nat): (r: Option<nat>)
    requires from <= |items|
    ensures r.Some? ==> from <= r.value < |items| && Hits(items[r.value], id)
    ensures r.Some? ==> forall k :: from <= k < r.value ==> !Hits(items[k], id)
    ensures r.None? ==> forall k :: from <= k < |items| ==> !Hits(items[k], id)
    decreases |items| - from
  {
    if from == |items| then None
    else if Hits(items[from], id) then Some(from)
    else ClickTarget(items, id, from + 1)
  }

  /** Canvas ids grow along the entries: each rectangle is created just before its image. */
  ghost predicate IdsOrdered(items: seq<Thumbnail>, nextId: int)
  {
    (forall k :: 0 <= k < |items| ==> 1 <= items[k].rectId < items[k].imgId < nextId) &&
    (forall k1, k2 :: 0 <= k1 < k2 < |items| ==> items[k1].imgId < items[k2].rectId)
  }

  /** Because canvas ids are never shared, a click on an entry's image or rectangle selects that entry. */
  lemma ClickTargetIsHitEntry(items: seq<Thumbnail>, nextId: int, k: nat, id: int)
    requires IdsOrdered(items, nextId) && k < |items| && Hits(items[k], id)
    ensures ClickTarget(items, id, 0) == Some(k)
  {
  }

  function FrameNumbers(items: seq<Thumbnail>): set<int>
  {
    set k | 0 <= k < |items| :: items[k].frameNumber
  }

  /** Moving entries changes neither their frames, their heights nor their canvas ids. */
  lemma MovingKeepsFacts(before: seq<Thumbnail>, after: seq<Thumbnail>, nextId: int)
    requires Unpositioned(before) == Unpositioned(after)
    ensures |after| == |before| && Heights(after) == Heights(before)
    ensures FrameNumbers(after) == FrameNumbers(before)
    ensures IdsOrdered(before, nextId) ==> IdsOrdered(after, nextId)
    ensures forall k :: 0 <= k < |after| ==> after[k].frameNumber == before[k].frameNumber
  {
    assert forall k :: 0 <= k < |after| ==> Unpositioned(after)[k] == Unpositioned(before)[k];
  }

  /** The first `k` entries sit where the flow layout over heights `hs` puts them. */
  ghost predicate PlacedBelow(items: seq<Thumbnail>, k: int, hs: seq<nat>, cols: int, thumbWidth: int, margin: int)
    requires cols >= 1 && 0 <= k <= |items|
  {
    forall m :: 0 <= m < k ==>
      items[m].x == ColumnX(m, cols, thumbWidth, margin) && items[m].y == ThumbY(hs, cols, margin, m)
  }

  lemma PlaceNext(items: seq<Thumbnail>, k: int, hs: seq<nat>, cols: int, thumbWidth: int, margin: int, x: int, y: int)
    requires cols >= 1 && 0 <= k < |items| && PlacedBelow(items, k, hs, cols, thumbWidth, margin)
    requires x == ColumnX(k, cols, thumbWidth, margin) && y == ThumbY(hs, cols, margin, k)
    ensures PlacedBelow(items[k := items[k].(x := x, y := y)], k + 1, hs, cols, thumbWidth, margin)
  {
  }

  /** Moving one entry keeps every height and everything but its position. */
  lemma MoveOne(items: seq<Thumbnail>, k: int, x: int, y: int)
    requires 0 <= k < |items|
    ensures Heights(items[k := items[k].(x := x, y := y)]) == Heights(items)
    ensures Unpositioned(items[k := items[k].(x := x, y := y)]) == Unpositioned(items)
  {
  }

  /**
   * The loop of `reposition_thumbnails`: walks the entries in order, wrapping
   * to a new row after `cols` of them, and moves each to its column and row.
   */
  method FlowLayout(items: seq<Thumbnail>, cols: int, thumbWidth: int, margin: int) returns (placed: seq<Thumbnail>)
    requires cols >= 1
    ensures Unpositioned(placed) == Unpositioned(items)
    ensures LaidOut(placed, cols, thumbWidth, margin)
  {
    placed := items;
    var currentRowY := margin;
    var currentCol := 0;
    var maxHeightInRow := 0;
    ghost var hs := Heights(items);
    ghost var row: nat := 0;
    var k := 0;
    CursorStart(hs, cols, margin);
    while k < |placed|
      invariant 0 <= k <= |placed| && Heights(placed) == hs
      invariant Unpositioned(placed) == Unpositioned(items)
      invariant PlacedBelow(placed, k, hs, cols, thumbWidth, margin)
      invariant Cursor(hs, cols, margin, k, row, currentCol, currentRowY, maxHeightInRow)
    {
      if currentCol >= cols {
        CursorNextRow(hs, cols, margin, k, row, currentRowY, maxHeightInRow);
        currentCol := 0;
        currentRowY := currentRowY + maxHeightInRow + margin;
        maxHeightInRow := 0;
        row := row + 1;
      }
      var x := currentCol * (thumbWidth + margin) + margin;
      var y := currentRowY;
      var item := placed[k];
      CursorPlace(hs, cols, thumbWidth, margin, k, row, currentCol, currentRowY, maxHeightInRow, item.height);
      PlaceNext(placed, k, hs, cols, thumbWidth, margin, x, y);
      MoveOne(placed, k, x, y);
      placed := placed[k := item.(x := x, y := y)];
      maxHeightInRow := if maxHeightInRow < item.height then item.height else maxHeightInRow;
      currentCol := currentCol + 1;
      k := k + 1;
    }
  }

  /**
   * After the first `i` frames are read, the kept frames, the entries and the
   * id counter are the ones before reading, extended by the frames kept so far.
   */
  ghost predicate ReadUpTo(video: seq<ReadFrame>, n: int, i: nat, firstId: int,
                           oldFrames: map<int, Frame>, oldItems: seq<Thumbnail>,
                           frames: map<int, Frame>, items: seq<Thumbnail>, nextId: int)
  {
    n > 0 && i <= |video| &&
    frames == oldFrames + SampledFrames(video, n, i) &&
    items == oldItems + NewThumbnails(video, n, i, firstId) &&
    nextId == firstId + 2 * |Sampled(i, n)|
  }

  lemma ReadNothing(video: seq<ReadFrame>, n: int, firstId: int, oldFrames: map<int, Frame>, oldItems: seq<Thumbnail>)
    requires n > 0
    ensures ReadUpTo(video, n, 0, firstId, oldFrames, oldItems, oldFrames, oldItems, firstId)
  {
    assert SampledFrames(video, n, 0) == map[];
  }

  /** Frame `i` is kept: one more entry in `original_frames`, and a rectangle and an image on the canvas. */
  lemma ReadKept(video: seq<ReadFrame>, n: int, i: nat, firstId: int,
                 oldFrames: map<int, Frame>, oldItems: seq<Thumbnail>,
                 frames: map<int, Frame>, items: seq<Thumbnail>, nextId: int)
    requires ReadUpTo(video, n, i, firstId, oldFrames, oldItems, frames, items, nextId)
    requires i < |video| && i % n == 0
    ensures ReadUpTo(video, n, i + 1, firstId, oldFrames, oldItems, frames[i := video[i].frame],
                     items + [Thumbnail(i, nextId + 1, nextId, 0, 0, video[i].thumbHeight)], nextId + 2)
  {
    NextFrameExtends(video, n, i, firstId);
    MapUpdateOfUnion(oldFrames, SampledFrames(video, n, i), i, video[i].frame);
  }

  /** Frame `i` is not kept: nothing changes. */
  lemma ReadSkipped(video: seq<ReadFrame>, n: int, i: nat, firstId: int,
                    oldFrames: map<int, Frame>, oldItems: seq<Thumbnail>,
                    frames: map<int, Frame>, items: seq<Thumbnail>, nextId: int)
    requires ReadUpTo(video, n, i, firstId, oldFrames, oldItems, frames, items, nextId)
    requires i < |video| && i % n != 0
    ensures ReadUpTo(video, n, i + 1, firstId, oldFrames, oldItems, frames, items, nextId)
  {
    NextFrameExtends(video, n, i, firstId);
  }

  lemma MapUpdateOfUnion<K, V>(m1: map<K, V>, m2: map<K, V>, k: K, v: V)
    ensures (m1 + m2)[k := v] == m1 + m2[k := v]
  {
  }

  /** Forgetting positions works entry by entry; fresh entries are already at (0, 0). */
  lemma UnpositionedAppend(items: seq<Thumbnail>, added: seq<Thumbnail>)
    requires forall k :: 0 <= k < |added| ==> added[k].x == 0 && added[k].y == 0
    ensures Unpositioned(items + added) == Unpositioned(items) + added
  {
    assert forall k :: 0 <= k < |added| ==> added[k] == added[k].(x := 0, y := 0);
  }

  class VideoProcessor {
    var videoPath: Option<string>
    var frameInterval: int
    var originalFrames: map<int, Frame>
    var thumbnailItems: seq<Thumbnail>
    var selectedFrames: set<int>
    /** The id the Tk canvas gives the next item it creates. */
    var nextItemId: int
    const thumbnailWidth: int := 256
    const margin: int := 10

    /**
     * Every entry's frame is kept in `original_frames`, every selected frame
     * number belongs to an entry, and canvas ids are distinct and ordered.
     */
    ghost predicate Valid()
      reads this
    {
      nextItemId >= 1 && IdsOrdered(thumbnailItems, nextItemId) &&
      (forall k :: 0 <= k < |thumbnailItems| ==> thumbnailItems[k].frameNumber in originalFrames) &&
      selectedFrames <= FrameNumbers(thumbnailItems)
    }

    /** `__init__`: no video, N = 10, nothing kept, shown or selected. */
    constructor ()
      ensures Valid()
      ensures videoPath == None && frameInterval == 10
      ensures originalFrames == map[] && thumbnailItems == [] && selectedFrames == {}
      ensures nextItemId == 1
    {
      videoPath := None;
      frameInterval := 10;
      originalFrames := map[];
      thumbnailItems := [];
      selectedFrames := {};
      nextItemId := 1;
    }

    /**
     * `reposition_thumbnails`: computes the number of columns from the canvas
     * width and moves every entry to its place in the flow layout.
     */
    method RepositionThumbnails(winfoWidth: int, reqWidth: int)
      requires Valid()
      modifies this`thumbnailItems
      ensures Valid()
      ensures Unpositioned(thumbnailItems) == Unpositioned(old(thumbnailItems))
      ensures LaidOut(thumbnailItems, Columns(CanvasWidth(winfoWidth, reqWidth), thumbnailWidth, margin),
                      thumbnailWidth, margin)
      ensures forall k1, k2 :: 0 <= k1 < |thumbnailItems| && 0 <= k2 < |thumbnailItems| && k1 != k2 ==>
                !Overlaps(ItemRect(thumbnailItems[k1], thumbnailWidth), ItemRect(thumbnailItems[k2], thumbnailWidth))
    {
      var cols := Columns(CanvasWidth(winfoWidth, reqWidth), thumbnailWidth, margin);
      var items := FlowLayout(thumbnailItems, cols, thumbnailWidth, margin);
      MovingKeepsFacts(thumbnailItems, items, nextItemId);
      thumbnailItems := items;
      forall k1, k2 | 0 <= k1 < |items| && 0 <= k2 < |items| && k1 != k2
        ensures !Overlaps(ItemRect(items[k1], thumbnailWidth), ItemRect(items[k2], thumbnailWidth))
      {
        var hs := Heights(items);
        LayoutDisjoint(hs, cols, thumbnailWidth, margin);
        assert ItemRect(items[k1], thumbnailWidth) == ThumbRect(hs, cols, thumbnailWidth, margin, k1);
        assert ItemRect(items[k2], thumbnailWidth) == ThumbRect(hs, cols, thumbnailWidth, margin, k2);
      }
    }

    /**
     * `process_video`: checks N, then keeps every frame `i` with `i % N == 0`
     * in `original_frames`, appends a thumbnail entry for it, and lays out
     * all entries again.  An N that is not a number or not positive changes
     * nothing; a video that cannot be opened leaves only N recorded.
     */
    method ProcessVideo(entry: Option<int>, isOpen: bool, video: seq<ReadFrame>, winfoWidth: int, reqWidth: int)
      returns (outcome: Outcome)
      requires Valid()
      modifies this
      ensures Valid()
      ensures videoPath == old(videoPath) && selectedFrames == old(selectedFrames)
      ensures entry.None? ==> outcome == NotANumber && unchanged(this)
      ensures entry.Some? && entry.value <= 0 ==> outcome == NonPositiveInterval && unchanged(this)
      ensures entry.Some? && entry.value > 0 && !isOpen ==>
                outcome == CannotOpen && frameInterval == entry.value &&
                originalFrames == old(originalFrames) && thumbnailItems == old(thumbnailItems) &&
                nextItemId == old(nextItemId)
      ensures entry.Some? && entry.value > 0 && isOpen ==>
                outcome == Processed && frameInterval == entry.value &&
                originalFrames == old(originalFrames) + SampledFrames(video, entry.value, |video|) &&
                Unpositioned(thumbnailItems) ==
                  Unpositioned(old(thumbnailItems)) + NewThumbnails(video, entry.value, |video|, old(nextItemId)) &&
                nextItemId == old(nextItemId) + 2 * |Sampled(|video|, entry.value)| &&
                LaidOut(thumbnailItems, Columns(CanvasWidth(winfoWidth, reqWidth), thumbnailWidth, margin),
                        thumbnailWidth, margin)
    {
      if entry.None? {
        return NotANumber;
      }
      var n := entry.value;
      if n <= 0 {
        return NonPositiveInterval;
      }
      frameInterval := n;
      if !isOpen {
        return CannotOpen;
      }
      ghost var oldItems := thumbnailItems;
      ghost var oldFrames := originalFrames;
      ghost var firstId := nextItemId;
      ReadFrames(video);
      AppendKeepsValid(oldItems, oldFrames, video, n, firstId);
      RepositionThumbnails(winfoWidth, reqWidth);
      UnpositionedAppend(oldItems, NewThumbnails(video, n, |video|, firstId));
      outcome := Processed;
    }

    /**
     * The reading loop of `process_video`: frame `i` of the video is kept, and
     * gets a rectangle and an image on the canvas, when `i % frame_interval == 0`.
     */
    method ReadFrames(video: seq<ReadFrame>)
      requires frameInterval > 0
      modifies this`originalFrames, this`thumbnailItems, this`nextItemId
      ensures originalFrames == old(originalFrames) + SampledFrames(video, frameInterval, |video|)
      ensures thumbnailItems == old(thumbnailItems) + NewThumbnails(video, frameInterval, |video|, old(nextItemId))
      ensures nextItemId == old(nextItemId) + 2 * |Sampled(|video|, frameInterval)|
    {
      ghost var oldItems := thumbnailItems;
      ghost var oldFrames := originalFrames;
      ghost var firstId := nextItemId;
      var n := frameInterval;
      var currentFrame := 0;
      ReadNothing(video, n, firstId, oldFrames, oldItems);
      while currentFrame < |video|
        invariant 0 <= currentFrame <= |video|
        invariant ReadUpTo(video, n, currentFrame, firstId, oldFrames, oldItems, originalFrames, thumbnailItems, nextItemId)
      {
        if currentFrame % n == 0 {
          ReadKept(video, n, currentFrame, firstId, oldFrames, oldItems, originalFrames, thumbnailItems, nextItemId);
          originalFrames := originalFrames[currentFrame := video[currentFrame].frame];
          var rectId := nextItemId;
          var imgId := nextItemId + 1;
          nextItemId := nextItemId + 2;
          thumbnailItems := thumbnailItems + [Thumbnail(currentFrame, imgId, rectId, 0, 0, video[currentFrame].thumbHeight)];
        } else {
          ReadSkipped(video, n, currentFrame, firstId, oldFrames, oldItems, originalFrames, thumbnailItems, nextItemId);
        }
        currentFrame := currentFrame + 1;
      }
    }

    /** Appending the entries of kept frames keeps the object invariant. */
    lemma AppendKeepsValid(oldItems: seq<Thumbnail>, oldFrames: map<int, Frame>, video: seq<ReadFrame>, n: int, firstId: int)
      requires n > 0 && firstId >= 1 && IdsOrdered(oldItems, firstId)
      requires forall k :: 0 <= k < |oldItems| ==> oldItems[k].frameNumber in oldFrames
      requires selectedFrames <= FrameNumbers(oldItems)
      requires thumbnailItems == oldItems + NewThumbnails(video, n, |video|, firstId)
      requires originalFrames == oldFrames + SampledFrames(video, n, |video|)
      requires nextItemId == firstId + 2 * |Sampled(|video|, n)|
      ensures Valid()
    {
      var items := thumbnailItems;
      var added := NewThumbnails(video, n, |video|, firstId);
      var frames := Sampled(|video|, n);
      forall k | 0 <= k < |items| ensures items[k].frameNumber in originalFrames {
        if k >= |oldItems| {
          assert items[k] == added[k - |oldItems|];
          assert frames[k - |oldItems|] in frames;
        } else {
          assert items[k] == oldItems[k];
        }
      }
      forall k1, k2 | 0 <= k1 < k2 < |items| ensures items[k1].imgId < items[k2].rectId {
        if k2 < |oldItems| {
          assert items[k1] == oldItems[k1] && items[k2] == oldItems[k2];
        } else if k1 < |oldItems| {
          assert items[k1] == oldItems[k1] && items[k2] == added[k2 - |oldItems|];
        } else {
          assert items[k1] == added[k1 - |oldItems|] && items[k2] == added[k2 - |oldItems|];
        }
      }
      assert FrameNumbers(oldItems) <= FrameNumbers(items) by {
        forall f | f in FrameNumbers(oldItems) ensures f in FrameNumbers(items) {
          var k :| 0 <= k < |oldItems| && oldItems[k].frameNumber == f;
          assert items[k] == oldItems[k];
        }
      }
    }

    /**
     * `on_canvas_click`: finds the entry whose image or rectangle is the canvas
     * item hit and toggles its frame number in `selected_frames`; a click on
     * nothing, or on an item that is no entry's, changes nothing.
     */
    method OnCanvasClick(hit: Option<int>)
      requires Valid()
      modifies this`selectedFrames
      ensures Valid()
      ensures hit.None? ==> selectedFrames == old(selectedFrames)
      ensures hit.Some? ==>
                selectedFrames == match ClickTarget(thumbnailItems, hit.value, 0)
                                  case None => old(selectedFrames)
                                  case Some(k) => Toggle(old(selectedFrames), thumbnailItems[k].frameNumber)
      ensures forall k :: hit.Some? && 0 <= k < |thumbnailItems| && Hits(thumbnailItems[k], hit.value) ==>
                selectedFrames == Toggle(old(selectedFrames), thumbnailItems[k].frameNumber)
    {
      if hit.None? {
        return;
      }
      var id := hit.value;
      var clicked: Option<nat> := None;
      var k := 0;
      while k < |thumbnailItems|
        invariant 0 <= k <= |thumbnailItems| && clicked.None?
        invariant forall m :: 0 <= m < k ==> !Hits(thumbnailItems[m], id)
      {
        if Hits(thumbnailItems[k], id) {
          clicked := Some(k);
          break;
        }
        k := k + 1;
      }
      ghost var target := ClickTarget(thumbnailItems, id, 0);
      if clicked.None? {
        assert target.None?;
        return;
      }
      assert target == clicked;
      var frameNum := thumbnailItems[clicked.value].frameNumber;
      if frameNum in selectedFrames {
        selectedFrames := selectedFrames - {frameNum};
      } else {
        selectedFrames := selectedFrames + {frameNum};
      }
      forall m | 0 <= m < |thumbnailItems| && Hits(thumbnailItems[m], id)
        ensures selectedFrames == Toggle(old(selectedFrames), thumbnailItems[m].frameNumber)
      {
        ClickTargetIsHitEntry(thumbnailItems, nextItemId, m, id);
      }
    }

    /**
     * `load_video`: a cancelled file dialog (empty name) changes nothing;
     * otherwise the new path is recorded and the kept frames, the entries and
     * the selection are emptied.
     */
    method LoadVideo(videoFile: string)
      requires Valid()
      modifies this
      ensures Valid()
      ensures videoFile == "" ==> unchanged(this)
      ensures videoFile != "" ==>
                videoPath == Some(videoFile) && originalFrames == map[] && thumbnailItems == [] &&
                selectedFrames == {} && frameInterval == old(frameInterval) && nextItemId == old(nextItemId)
    {
      if videoFile == "" {
        return;
      }
      videoPath := Some(videoFile);
      originalFrames := map[];
      thumbnailItems := [];
      selectedFrames := {};
    }
  }

  /** One more frame read extends the kept frames and the appended entries by that frame, if it is kept. */
  lemma NextFrameExtends(video: seq<ReadFrame>, n: int, i: nat, firstId: int)
    requires n > 0 && i < |video|
    ensures SampledFrames(video, n, i + 1) ==
              if i % n == 0 then SampledFrames(video, n, i)[i := video[i].frame] else SampledFrames(video, n, i)
    ensures NewThumbnails(video, n, i + 1, firstId) ==
              if i % n == 0
              then NewThumbnails(video, n, i, firstId) +
                   [Thumbnail(i, firstId + 2 * |Sampled(i, n)| + 1, firstId + 2 * |Sampled(i, n)|, 0, 0, video[i].thumbHeight)]
              else NewThumbnails(video, n, i, firstId)
    ensures |Sampled(i + 1, n)| == |Sampled(i, n)| + (if i % n == 0 then 1 else 0)
  {
    var before := NewThumbnails(video, n, i, firstId);
    var after := NewThumbnails(video, n, i + 1, firstId);
    var s0 := Sampled(i, n);
    assert Sampled(i + 1, n) == s0 + (if i % n == 0 then [i] else []);
    assert forall j :: 0 <= j < |s0| ==> after[j] == before[j];
  }
}
