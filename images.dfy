/**
 * Sprite images as the compositor sees them after `cv2.imread(..., IMREAD_UNCHANGED)`,
 * resizing and rotation: a `height` x `width` grid of colour pixels in OpenCV's
 * B, G, R channel order and, for four-channel images, a plane of alpha values.
 * The transparent-border trim `ajustar_transparencia` lives here, together with
 * the bounding rectangle of the non-zero alpha values that `cv2.findNonZero` and
 * `cv2.boundingRect` compute for it.
 */
module Images {
  import opened Wrappers
  import opened Geometry

  type Byte = b: int | 0 <= b < 256

  datatype Bgr = Bgr(b: Byte, g: Byte, r: Byte)

  /** Colour channel `c` of a pixel, in the array's channel order (0 = blue, 1 = green, 2 = red). */
  function Channel(p: Bgr, c: nat): Byte
    requires c < 3
  {
    if c == 0 then p.b else if c == 1 then p.g else p.r
  }

  /** `g` is a rectangular `h` x `w` grid (a list of `h` rows of length `w`). */
  predicate IsGrid<T>(g: seq<seq<T>>, h: nat, w: nat)
  {
    |g| == h && forall i :: 0 <= i < h ==> |g[i]| == w
  }

  /** An `img.shape == (height, width, 3)` or `(height, width, 4)` array: colour planes and optional alpha plane. */
  datatype Image = Image(height: nat, width: nat, color: seq<seq<Bgr>>, alpha: Option<seq<seq<Byte>>>)

  predicate WellFormed(img: Image)
  {
    IsGrid(img.color, img.height, img.width) &&
    (img.alpha.Some? ==> IsGrid(img.alpha.value, img.height, img.width))
  }

  // ---------------------------------------------------------------------------
  // Non-zero alpha values and their bounding rectangle
  // ---------------------------------------------------------------------------

  /** Row `i` of the alpha plane holds a non-zero value. */
  predicate RowHasInk(a: seq<seq<Byte>>, h: nat, w: nat, i: int)
    requires IsGrid(a, h, w)
  {
    0 <= i < h && exists j :: 0 <= j < w && a[i][j] != 0
  }

  /** Column `j` of the alpha plane holds a non-zero value. */
  predicate ColHasInk(a: seq<seq<Byte>>, h: nat, w: nat, j: int)
    requires IsGrid(a, h, w)
  {
    0 <= j < w && exists i :: 0 <= i < h && a[i][j] != 0
  }

  /** Every alpha value is zero: `cv2.findNonZero` returns `None`. */
  predicate AllClear(a: seq<seq<Byte>>, h: nat, w: nat)
    requires IsGrid(a, h, w)
  {
    forall i, j :: 0 <= i < h && 0 <= j < w ==> a[i][j] == 0
  }

  /** The first row at or after `from` that holds a non-zero value, or `h` if there is none. */
  function FirstInkRow(a: seq<seq<Byte>>, h: nat, w: nat, from: nat): (r: nat)
    requires IsGrid(a, h, w) && from <= h
    ensures from <= r <= h
    ensures r < h ==> RowHasInk(a, h, w, r)
    ensures forall i :: from <= i < r ==> !RowHasInk(a, h, w, i)
    decreases h - from
  {
    if from == h then h
    else if RowHasInk(a, h, w, from) then from
    else FirstInkRow(a, h, w, from + 1)
  }

  /** The last row before `upto` that holds a non-zero value, or -1 if there is none. */
  function LastInkRow(a: seq<seq<Byte>>, h: nat, w: nat, upto: nat): (r: int)
    requires IsGrid(a, h, w) && upto <= h
    ensures -1 <= r < upto
    ensures r >= 0 ==> RowHasInk(a, h, w, r)
    ensures forall i :: r < i < upto ==> !RowHasInk(a, h, w, i)
  {
    if upto == 0 then -1
    else if RowHasInk(a, h, w, upto - 1) then upto - 1
    else LastInkRow(a, h, w, upto - 1)
  }

  /** The first column at or after `from` that holds a non-zero value, or `w` if there is none. */
  function FirstInkCol(a: seq<seq<Byte>>, h: nat, w: nat, from: nat): (r: nat)
    requires IsGrid(a, h, w) && from <= w
    ensures from <= r <= w
    ensures r < w ==> ColHasInk(a, h, w, r)
    ensures forall j :: from <= j < r ==> !ColHasInk(a, h, w, j)
    decreases w - from
  {
    if from == w then w
    else if ColHasInk(a, h, w, from) then from
    else FirstInkCol(a, h, w, from + 1)
  }

  /** The last column before `upto` that holds a non-zero value, or -1 if there is none. */
  function LastInkCol(a: seq<seq<Byte>>, h: nat, w: nat, upto: nat): (r: int)
    requires IsGrid(a, h, w) && upto <= w
    ensures -1 <= r < upto
    ensures r >= 0 ==> ColHasInk(a, h, w, r)
    ensures forall j :: r < j < upto ==> !ColHasInk(a, h, w, j)
  {
    if upto == 0 then -1
    else if ColHasInk(a, h, w, upto - 1) then upto - 1
    else LastInkCol(a, h, w, upto - 1)
  }

  /**
   * `b` is the minimal upright rectangle holding every non-zero alpha value:
   * it lies inside the plane, contains each non-zero value, and each of its
   * four border rows and columns holds one.
   */
  ghost predicate TightBox(a: seq<seq<Byte>>, h: nat, w: nat, b: Rect)
    requires IsGrid(a, h, w)
  {
    0 <= b.x && 0 < b.w && b.x + b.w <= w &&
    0 <= b.y && 0 < b.h && b.y + b.h <= h &&
    (forall i, j :: 0 <= i < h && 0 <= j < w && a[i][j] != 0 ==> Contains(b, i, j)) &&
    RowHasInk(a, h, w, b.y) && RowHasInk(a, h, w, b.y + b.h - 1) &&
    ColHasInk(a, h, w, b.x) && ColHasInk(a, h, w, b.x + b.w - 1)
  }

  lemma InkRowAndCol(a: seq<seq<Byte>>, h: nat, w: nat, i: int, j: int)
    requires IsGrid(a, h, w) && 0 <= i < h && 0 <= j < w && a[i][j] != 0
    ensures RowHasInk(a, h, w, i) && ColHasInk(a, h, w, j)
  {
  }

  /** `cv2.boundingRect(cv2.findNonZero(alpha))`, with `None` where `findNonZero` finds nothing. */
  function BoundingBox(a: seq<seq<Byte>>, h: nat, w: nat): (r: Option<Rect>)
    requires IsGrid(a, h, w)
    ensures r.None? <==> AllClear(a, h, w)
    ensures r.Some? ==> TightBox(a, h, w, r.value)
  {
    var top := FirstInkRow(a, h, w, 0);
    if top == h then
      assert AllClear(a, h, w) by {
        forall i, j | 0 <= i < h && 0 <= j < w ensures a[i][j] == 0 {
          if a[i][j] != 0 { InkRowAndCol(a, h, w, i, j); }
        }
      }
      None
    else
      var bottom := LastInkRow(a, h, w, h);
      var left := FirstInkCol(a, h, w, 0);
      var right := LastInkCol(a, h, w, w);
      BoundingBoxFacts(a, h, w, top, bottom, left, right);
      Some(Rect(left, top, right - left + 1, bottom - top + 1))
  }

  lemma BoundingBoxFacts(a: seq<seq<Byte>>, h: nat, w: nat, top: nat, bottom: int, left: nat, right: int)
    requires IsGrid(a, h, w)
    requires top == FirstInkRow(a, h, w, 0) && top < h
    requires bottom == LastInkRow(a, h, w, h)
    requires left == FirstInkCol(a, h, w, 0)
    requires right == LastInkCol(a, h, w, w)
    ensures !AllClear(a, h, w)
    ensures TightBox(a, h, w, Rect(left, top, right - left + 1, bottom - top + 1))
  {
    var j0 :| 0 <= j0 < w && a[top][j0] != 0;
    InkRowAndCol(a, h, w, top, j0);
    var b := Rect(left, top, right - left + 1, bottom - top + 1);
    forall i, j | 0 <= i < h && 0 <= j < w && a[i][j] != 0 ensures Contains(b, i, j) {
      InkRowAndCol(a, h, w, i, j);
    }
  }

  // ---------------------------------------------------------------------------
  // Cropping and the trim
  // ---------------------------------------------------------------------------

  /** The rectangle `b` lies inside an `h` x `w` grid. */
  predicate FitsIn(b: Rect, h: nat, w: nat)
  {
    0 <= b.x && 0 <= b.w && b.x + b.w <= w && 0 <= b.y && 0 <= b.h && b.y + b.h <= h
  }

  /** The slice `g[y : y + h, x : x + w]`. */
  function CropGrid<T>(g: seq<seq<T>>, gh: nat, gw: nat, b: Rect): (r: seq<seq<T>>)
    requires IsGrid(g, gh, gw) && FitsIn(b, gh, gw)
    ensures IsGrid(r, b.h, b.w)
    ensures forall i, j :: 0 <= i < b.h && 0 <= j < b.w ==> r[i][j] == g[b.y + i][b.x + j]
  {
    seq(b.h, i requires 0 <= i < b.h => g[b.y + i][b.x .. b.x + b.w])
  }

  /** `img[y : y + h, x : x + w]` on every plane of the image. */
  function Crop(img: Image, b: Rect): (r: Image)
    requires WellFormed(img) && FitsIn(b, img.height, img.width)
    ensures WellFormed(r) && r.height == b.h && r.width == b.w
    ensures r.alpha.Some? <==> img.alpha.Some?
  {
    Image(b.h, b.w,
          CropGrid(img.color, img.height, img.width, b),
          if img.alpha.Some? then Some(CropGrid(img.alpha.value, img.height, img.width, b)) else None)
  }

  /**
   * `ajustar_transparencia`: a four-channel image is cropped to the bounding
   * rectangle of its non-zero alpha values; an image without alpha, and an image
   * whose alpha is zero everywhere, is returned as it is.
   */
  function Trim(img: Image): (t: Image)
    requires WellFormed(img)
    ensures WellFormed(t)
    ensures t.alpha.Some? <==> img.alpha.Some?
    ensures t.height <= img.height && t.width <= img.width
    ensures img.alpha.None? ==> t == img
    ensures img.alpha.Some? && AllClear(img.alpha.value, img.height, img.width) ==> t == img
    ensures img.alpha.Some? && !AllClear(img.alpha.value, img.height, img.width) ==>
              t.height >= 1 && t.width >= 1
  {
    if img.alpha.None? then img
    else
      match BoundingBox(img.alpha.value, img.height, img.width)
      case None => img
      case Some(b) => Crop(img, b)
  }

  /** `t` is the part of `img` at offset `(x, y)`: same planes, pixel values copied unchanged. */
  ghost predicate CropAt(t: Image, img: Image, x: int, y: int)
    requires WellFormed(t) && WellFormed(img)
  {
    0 <= x && x + t.width <= img.width && 0 <= y && y + t.height <= img.height &&
    (t.alpha.Some? <==> img.alpha.Some?) &&
    (forall i, j :: 0 <= i < t.height && 0 <= j < t.width ==> t.color[i][j] == img.color[y + i][x + j]) &&
    (t.alpha.Some? ==>
       forall i, j :: 0 <= i < t.height && 0 <= j < t.width ==>
         t.alpha.value[i][j] == img.alpha.value[y + i][x + j])
  }

  /** Every non-zero alpha value of `img` lands inside `t` when `t` sits at offset `(x, y)`. */
  ghost predicate HoldsAllInk(t: Image, img: Image, x: int, y: int)
    requires WellFormed(img) && img.alpha.Some?
  {
    forall i, j :: 0 <= i < img.height && 0 <= j < img.width && img.alpha.value[i][j] != 0 ==>
      y <= i < y + t.height && x <= j < x + t.width
  }

  /** Each of the four border rows and columns of `t` holds a non-zero alpha value. */
  ghost predicate InkOnEveryBorder(t: Image)
    requires WellFormed(t) && t.alpha.Some?
  {
    var a := t.alpha.value;
    RowHasInk(a, t.height, t.width, 0) && RowHasInk(a, t.height, t.width, t.height - 1) &&
    ColHasInk(a, t.height, t.width, 0) && ColHasInk(a, t.height, t.width, t.width - 1)
  }

  lemma CropIsCropAt(img: Image, b: Rect)
    requires WellFormed(img) && FitsIn(b, img.height, img.width)
    ensures CropAt(Crop(img, b), img, b.x, b.y)
  {
  }

  /**
   * For a four-channel image with some non-zero alpha, the trim is a crop at some
   * offset `(x, y)` that holds every non-zero alpha value and has one on each border.
   */
  lemma TrimIsTightCrop(img: Image)
    requires WellFormed(img) && img.alpha.Some?
    requires !AllClear(img.alpha.value, img.height, img.width)
    ensures exists x, y :: CropAt(Trim(img), img, x, y) && HoldsAllInk(Trim(img), img, x, y)
    ensures InkOnEveryBorder(Trim(img))
  {
    var a := img.alpha.value;
    var b := BoundingBox(a, img.height, img.width).value;
    var t := Trim(img);
    assert t == Crop(img, b);
    CropIsCropAt(img, b);
    assert HoldsAllInk(t, img, b.x, b.y);
    BorderInkSurvivesCrop(img, b);
  }

  lemma BorderInkSurvivesCrop(img: Image, b: Rect)
    requires WellFormed(img) && img.alpha.Some?
    requires TightBox(img.alpha.value, img.height, img.width, b)
    ensures InkOnEveryBorder(Crop(img, b))
  {
    var a := img.alpha.value;
    RowInkSurvivesCrop(a, img.height, img.width, b, b.y);
    RowInkSurvivesCrop(a, img.height, img.width, b, b.y + b.h - 1);
    ColInkSurvivesCrop(a, img.height, img.width, b, b.x);
    ColInkSurvivesCrop(a, img.height, img.width, b, b.x + b.w - 1);
  }

  /** A row `i` with ink, inside a rectangle that holds all the ink, keeps it in the crop. */
  lemma RowInkSurvivesCrop(a: seq<seq<Byte>>, h: nat, w: nat, b: Rect, i: int)
    requires IsGrid(a, h, w) && TightBox(a, h, w, b) && b.y <= i < b.y + b.h && RowHasInk(a, h, w, i)
    ensures RowHasInk(CropGrid(a, h, w, b), b.h, b.w, i - b.y)
  {
    var j :| 0 <= j < w && a[i][j] != 0;
    assert Contains(b, i, j);
    assert CropGrid(a, h, w, b)[i - b.y][j - b.x] != 0;
  }

  /** A column `j` with ink, inside a rectangle that holds all the ink, keeps it in the crop. */
  lemma ColInkSurvivesCrop(a: seq<seq<Byte>>, h: nat, w: nat, b: Rect, j: int)
    requires IsGrid(a, h, w) && TightBox(a, h, w, b) && b.x <= j < b.x + b.w && ColHasInk(a, h, w, j)
    ensures ColHasInk(CropGrid(a, h, w, b), b.h, b.w, j - b.x)
  {
    var i :| 0 <= i < h && a[i][j] != 0;
    assert Contains(b, i, j);
    assert CropGrid(a, h, w, b)[i - b.y][j - b.x] != 0;
  }

  /** A grid whose four borders hold non-zero values has the whole grid as its bounding rectangle. */
  lemma TightBoxOfBorderedIsWhole(a: seq<seq<Byte>>, h: nat, w: nat, b: Rect)
    requires IsGrid(a, h, w) && TightBox(a, h, w, b)
    requires RowHasInk(a, h, w, 0) && RowHasInk(a, h, w, h - 1)
    requires ColHasInk(a, h, w, 0) && ColHasInk(a, h, w, w - 1)
    ensures b == Rect(0, 0, w, h)
  {
    var j0 :| 0 <= j0 < w && a[0][j0] != 0;
    assert Contains(b, 0, j0);
    var j1 :| 0 <= j1 < w && a[h - 1][j1] != 0;
    assert Contains(b, h - 1, j1);
    var i0 :| 0 <= i0 < h && a[i0][0] != 0;
    assert Contains(b, i0, 0);
    var i1 :| 0 <= i1 < h && a[i1][w - 1] != 0;
    assert Contains(b, i1, w - 1);
  }

  lemma CropWholeIsIdentity(img: Image)
    requires WellFormed(img)
    ensures Crop(img, Rect(0, 0, img.width, img.height)) == img
  {
    var b := Rect(0, 0, img.width, img.height);
    var c := Crop(img, b);
    assert c.color == img.color by {
      forall i | 0 <= i < img.height ensures c.color[i] == img.color[i] {
        assert c.color[i] == img.color[i][0 .. img.width];
      }
    }
    if img.alpha.Some? {
      assert c.alpha.value == img.alpha.value by {
        forall i | 0 <= i < img.height ensures c.alpha.value[i] == img.alpha.value[i] {
          assert c.alpha.value[i] == img.alpha.value[i][0 .. img.width];
        }
      }
    }
  }

  /** An image with ink on all four borders is its own trim. */
  lemma TrimOfBorderedIsIdentity(t: Image)
    requires WellFormed(t) && t.alpha.Some? && t.height >= 1 && t.width >= 1 && InkOnEveryBorder(t)
    ensures Trim(t) == t
  {
    var ta := t.alpha.value;
    var j0 :| 0 <= j0 < t.width && ta[0][j0] != 0;
    assert !AllClear(ta, t.height, t.width);
    var b := BoundingBox(ta, t.height, t.width).value;
    TightBoxOfBorderedIsWhole(ta, t.height, t.width, b);
    assert Trim(t) == Crop(t, b);
    CropWholeIsIdentity(t);
  }

  /** Trimming an already trimmed image changes nothing. */
  lemma TrimIdempotent(img: Image)
    requires WellFormed(img)
    ensures Trim(Trim(img)) == Trim(img)
  {
    if img.alpha.Some? && !AllClear(img.alpha.value, img.height, img.width) {
      TrimIsTightCrop(img);
      TrimOfBorderedIsIdentity(Trim(img));
    }
  }
}
