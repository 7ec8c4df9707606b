/**
 * The canvas `fondo` of one generated sample and the two ways `generar_imagen`
 * writes a placed sprite into it: an alpha blend for four-channel sprites and an
 * opaque copy otherwise; and the normalised YOLO box written for each placement.
 */
module Compositor {
  import opened Wrappers
  import opened Geometry
  import opened Images

  /** Width and height of every generated sample. */
  const Size: int := 640

  /** `fondo`: a `Size` x `Size` x 3 array of colour bytes. */
  predicate IsCanvas(fondo: array3<Byte>)
  {
    fondo.Length0 == Size && fondo.Length1 == Size && fondo.Length2 == 3
  }

  /** `b` lies inside the canvas: `0 <= x`, `x + w <= 640`, `0 <= y`, `y + h <= 640`. */
  predicate InCanvas(b: Rect)
  {
    0 <= b.x && b.x + b.w <= Size && 0 <= b.y && b.y + b.h <= Size
  }

  /**
   * One channel of `(1 - alpha) * roi + alpha * overlay` with `alpha` normalised by 255,
   * stored back into the `uint8` canvas (which truncates).  Computed exactly:
   * `floor((under * (255 - a) + over * a) / 255)`.
   */
  function BlendChannel(a: Byte, under: Byte, over: Byte): (r: Byte)
    ensures a == 0 ==> r == under
    ensures a == 255 ==> r == over
    ensures under <= over ==> under <= r <= over
    ensures over <= under ==> over <= r <= under
  {
    BlendBounds(a, under, over);
    (under * (255 - a) + over * a) / 255
  }

  lemma BlendBounds(a: Byte, under: Byte, over: Byte)
    ensures var s := under * (255 - a) + over * a;
            (under <= over ==> 255 * under <= s <= 255 * over) &&
            (over <= under ==> 255 * over <= s <= 255 * under)
  {
    BlendOffsets(a, under, over);
    if under <= over {
      NonNegProduct(over - under, a);
      NonNegProduct(over - under, 255 - a);
    } else {
      NonNegProduct(under - over, a);
      NonNegProduct(under - over, 255 - a);
    }
  }

  lemma BlendOffsets(a: int, under: int, over: int)
    ensures under * (255 - a) + over * a - 255 * under == (over - under) * a
    ensures 255 * over - (under * (255 - a) + over * a) == (over - under) * (255 - a)
  {
  }

  lemma NonNegProduct(x: int, y: int)
    requires x >= 0 && y >= 0
    ensures x * y >= 0
  {
  }

  /**
   * The value channel `c` of a canvas pixel takes when sprite pixel `(i, j)` is
   * laid over a canvas value `under`: the sprite's own colour without alpha, the
   * blend with alpha.
   */
  function Layer(img: Image, i: int, j: int, c: nat, under: Byte): Byte
    requires WellFormed(img) && 0 <= i < img.height && 0 <= j < img.width && c < 3
  {
    if img.alpha.None? then Channel(img.color[i][j], c)
    else BlendChannel(img.alpha.value[i][j], under, Channel(img.color[i][j], c))
  }

  /** A fully opaque sprite pixel replaces the canvas value; one with alpha 0 leaves it. */
  lemma LayerBoundaryCases(img: Image, i: int, j: int, c: nat, under: Byte)
    requires WellFormed(img) && 0 <= i < img.height && 0 <= j < img.width && c < 3
    ensures img.alpha.None? ==> Layer(img, i, j, c, under) == Channel(img.color[i][j], c)
    ensures img.alpha.Some? && img.alpha.value[i][j] == 0 ==> Layer(img, i, j, c, under) == under
    ensures img.alpha.Some? && img.alpha.value[i][j] == 255 ==>
              Layer(img, i, j, c, under) == Channel(img.color[i][j], c)
  {
  }

  /**
   * Writes sprite `img` into the region `[y, y + h) x [x, x + w)` of the canvas:
   * `roi[:, :, c] = (1 - alpha) * roi[:, :, c] + alpha * overlay[:, :, c]` for each
   * colour channel when the sprite has alpha, `fondo[y:y+h, x:x+w] = img[:, :, :3]`
   * otherwise.  Every pixel outside the region keeps its value.
   */
  method Paste(fondo: array3<Byte>, img: Image, b: Rect)
    requires IsCanvas(fondo) && WellFormed(img)
    requires b.w == img.width && b.h == img.height && InCanvas(b)
    modifies fondo
    ensures forall i, j, c :: 0 <= i < Size && 0 <= j < Size && 0 <= c < 3 ==>
              fondo[i, j, c] == if Contains(b, i, j) then Layer(img, i - b.y, j - b.x, c, old(fondo[i, j, c]))
                                else old(fondo[i, j, c])
  {
    if img.alpha.Some? {
      for c := 0 to 3
        invariant forall i, j, k :: 0 <= i < Size && 0 <= j < Size && 0 <= k < 3 ==>
                    fondo[i, j, k] == if Contains(b, i, j) && k < c
                                      then Layer(img, i - b.y, j - b.x, k, old(fondo[i, j, k]))
                                      else old(fondo[i, j, k])
      {
        forall i, j | b.y <= i < b.y + b.h && b.x <= j < b.x + b.w {
          fondo[i, j, c] := BlendChannel(img.alpha.value[i - b.y][j - b.x], fondo[i, j, c],
                                         Channel(img.color[i - b.y][j - b.x], c));
        }
      }
    } else {
      forall i, j, c | b.y <= i < b.y + b.h && b.x <= j < b.x + b.w && 0 <= c < 3 {
        fondo[i, j, c] := Channel(img.color[i - b.y][j - b.x], c);
      }
    }
  }

  // ---------------------------------------------------------------------------
  // YOLO annotation lines
  // ---------------------------------------------------------------------------

  /** One line `<clase_id> <x_centro> <y_centro> <ancho> <alto>` of the annotation file, before formatting. */
  datatype Annotation = Annotation(classId: int, xCenter: real, yCenter: real, width: real, height: real)

  /** The box of a placement at `(x, y)` of size `w` x `h`, normalised by the canvas size. */
  function Annotate(classId: int, b: Rect): (a: Annotation)
    ensures a.classId == classId
    ensures a.xCenter * Size as real == b.x as real + b.w as real / 2.0
    ensures a.yCenter * Size as real == b.y as real + b.h as real / 2.0
    ensures a.width * Size as real == b.w as real && a.height * Size as real == b.h as real
    ensures InCanvas(b) && b.w >= 0 && b.h >= 0 ==>
              0.0 <= a.xCenter <= 1.0 && 0.0 <= a.yCenter <= 1.0 &&
              0.0 <= a.width <= 1.0 && 0.0 <= a.height <= 1.0
  {
    Annotation(classId,
               (b.x as real + b.w as real / 2.0) / Size as real,
               (b.y as real + b.h as real / 2.0) / Size as real,
               b.w as real / Size as real,
               b.h as real / Size as real)
  }

  /** Reads a pixel box back from an annotation: multiply by the canvas size and undo the centring. */
  function DecodeBox(a: Annotation): Rect
  {
    var w := (a.width * Size as real).Floor;
    var h := (a.height * Size as real).Floor;
    Rect((a.xCenter * Size as real - w as real / 2.0).Floor,
         (a.yCenter * Size as real - h as real / 2.0).Floor, w, h)
  }

  /** Decoding an exact annotation line reproduces the placed box. */
  lemma AnnotationRoundTrip(classId: int, b: Rect)
    ensures DecodeBox(Annotate(classId, b)) == b && Annotate(classId, b).classId == classId
  {
    var a := Annotate(classId, b);
    assert (a.width * Size as real).Floor == b.w;
    assert (a.height * Size as real).Floor == b.h;
  }
}
