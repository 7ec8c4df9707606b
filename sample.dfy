/**
 * One run of `generar_imagen`: for each requested instance a sprite is chosen,
 * transformed, trimmed, filtered by size, placed first-fit, pasted into the
 * white canvas and annotated.  `Run` is the reference definition of which
 * instances end up placed, in which order and where; `GenerateImage` is the
 * imperative loop, proved to compute exactly that, and the lemmas give the
 * sample's invariants: boxes pairwise non-overlapping and inside the canvas,
 * one annotation line per box in placement order, and the final canvas colours.
 */
module Sample {
  import opened Wrappers
  import opened Geometry
  import opened Images
  import opened Compositor
  import opened Placement

  /** One loaded sprite `(img, clase_id)`. */
  datatype Sprite = Sprite(image: Image, classId: int)

  /**
   * The randomness and the foreign transforms of one requested instance:
   * `choice` is the index `random.choice` picks, `rotated` the image
   * `rotar_imagen(cv2.resize(img, ...), angulo)` produces for it, and `draws` the
   * positions `random.randint` supplies to the placement loop.
   */
  datatype Request = Request(choice: nat, rotated: Image, draws: seq<Pos>)

  /** A placed instance: its class, its box in `cajas`, and the trimmed sprite pasted there. */
  datatype Placed = Placed(classId: int, box: Rect, image: Image)

  /** The size filter: skip an empty trim result and one wider or taller than the canvas. */
  predicate Admissible(img: Image)
  {
    1 <= img.width <= Size && 1 <= img.height <= Size
  }

  /**
   * What the caller of the placement loop guarantees about one request.
   * Resizing and rotating keep the channel count, so the transformed image
   * has an alpha channel exactly when the chosen sprite has one.
   */
  ghost predicate ValidRequest(sprites: seq<Sprite>, req: Request)
  {
    req.choice < |sprites| && WellFormed(req.rotated) &&
    (req.rotated.alpha.Some? <==> sprites[req.choice].image.alpha.Some?) &&
    var t := Trim(req.rotated);
    Admissible(t) ==>
      |req.draws| == MaxAttempts &&
      forall k :: 0 <= k < |req.draws| ==> DrawInRange(req.draws[k], t.width, t.height)
  }

  ghost predicate ValidRequests(sprites: seq<Sprite>, reqs: seq<Request>)
  {
    forall k :: 0 <= k < |reqs| ==> ValidRequest(sprites, reqs[k])
  }

  function Boxes(placed: seq<Placed>): (r: seq<Rect>)
    ensures |r| == |placed| && forall k :: 0 <= k < |placed| ==> r[k] == placed[k].box
  {
    seq(|placed|, k requires 0 <= k < |placed| => placed[k].box)
  }

  function Annotations(placed: seq<Placed>): (r: seq<Annotation>)
    ensures |r| == |placed|
    ensures forall k :: 0 <= k < |placed| ==> r[k] == Annotate(placed[k].classId, placed[k].box)
  {
    seq(|placed|, k requires 0 <= k < |placed| => Annotate(placed[k].classId, placed[k].box))
  }

  /** Each placed instance is an admissible, well-formed sprite whose box has its size and lies in the canvas. */
  ghost predicate Consistent(placed: seq<Placed>)
  {
    forall k :: 0 <= k < |placed| ==>
      var p := placed[k];
      WellFormed(p.image) && Admissible(p.image) &&
      p.box.w == p.image.width && p.box.h == p.image.height && InCanvas(p.box)
  }

  /** No two boxes overlap. */
  ghost predicate PairwiseDisjoint(boxes: seq<Rect>)
  {
    forall k1, k2 :: 0 <= k1 < |boxes| && 0 <= k2 < |boxes| && k1 != k2 ==> !Overlaps(boxes[k1], boxes[k2])
  }

  /**
   * One requested instance processed on top of the instances placed so far:
   * skipped when the trimmed sprite fails the size filter or every draw collides,
   * appended with the first free candidate otherwise.
   */
  ghost function Step(sprites: seq<Sprite>, placed: seq<Placed>, req: Request): (r: seq<Placed>)
    requires ValidRequest(sprites, req)
    ensures |r| == |placed| || |r| == |placed| + 1
    ensures r[..|placed|] == placed
    ensures |r| == |placed| + 1 <==>
              Admissible(Trim(req.rotated)) &&
              FirstFree(Boxes(placed), Trim(req.rotated).width, Trim(req.rotated).height, req.draws, 0).Some?
    ensures |r| == |placed| + 1 ==>
              var p := r[|placed|];
              p.classId == sprites[req.choice].classId && p.image == Trim(req.rotated) &&
              p.box.w == p.image.width && p.box.h == p.image.height &&
              InCanvas(p.box) && !CollidesWithAny(p.box, Boxes(placed))
  {
    var img := Trim(req.rotated);
    if !Admissible(img) then placed
    else
      match FirstFree(Boxes(placed), img.width, img.height, req.draws, 0)
      case None => placed
      case Some(k) => placed + [Placed(sprites[req.choice].classId, Candidate(req.draws[k], img.width, img.height), img)]
  }

  /**
   * The instances placed by processing `reqs` in order on an empty canvas.
   * Every sample keeps its boxes inside the canvas, sized like their sprites,
   * and pairwise non-overlapping.
   */
  ghost function Run(sprites: seq<Sprite>, reqs: seq<Request>): (r: seq<Placed>)
    requires ValidRequests(sprites, reqs)
    ensures Consistent(r) && PairwiseDisjoint(Boxes(r))
  {
    if reqs == [] then []
    else
      var before := Run(sprites, reqs[..|reqs| - 1]);
      StepKeepsInvariant(sprites, before, reqs[|reqs| - 1]);
      Step(sprites, before, reqs[|reqs| - 1])
  }

  /** The number of iterations `for _ in range(num_imagenes)` runs before `if not imagenes: break`. */
  function Iterations(sprites: seq<Sprite>, numImagenes: int): nat
  {
    if |sprites| == 0 || numImagenes <= 0 then 0 else numImagenes
  }

  /** The value of canvas channel `(i, j, c)` after pasting the placed instances in order onto white. */
  ghost function Painted(placed: seq<Placed>, i: int, j: int, c: nat): Byte
    requires Consistent(placed) && c < 3
  {
    if placed == [] then 255
    else
      var p := placed[|placed| - 1];
      var under := Painted(placed[..|placed| - 1], i, j, c);
      if Contains(p.box, i, j) then Layer(p.image, i - p.box.y, j - p.box.x, c, under) else under
  }

  // ---------------------------------------------------------------------------
  // The sample's invariants
  // ---------------------------------------------------------------------------

  lemma StepKeepsInvariant(sprites: seq<Sprite>, placed: seq<Placed>, req: Request)
    requires ValidRequest(sprites, req)
    requires Consistent(placed) && PairwiseDisjoint(Boxes(placed))
    ensures Consistent(Step(sprites, placed, req)) && PairwiseDisjoint(Boxes(Step(sprites, placed, req)))
  {
    var r := Step(sprites, placed, req);
    if |r| == |placed| + 1 {
      var n := |placed|;
      var bs := Boxes(r);
      assert forall k :: 0 <= k < n ==> r[k] == placed[k] by {
        assert r[..n] == placed;
      }
      forall k1, k2 | 0 <= k1 < |bs| && 0 <= k2 < |bs| && k1 != k2
        ensures !Overlaps(bs[k1], bs[k2])
      {
        if k1 == n {
          assert !Overlaps(bs[k1], Boxes(placed)[k2]);
        } else if k2 == n {
          assert !Overlaps(bs[k2], Boxes(placed)[k1]);
          OverlapsSymmetric(bs[k1], bs[k2]);
        } else {
          assert !Overlaps(Boxes(placed)[k1], Boxes(placed)[k2]);
        }
      }
    }
  }

  /**
   * Instances are only ever appended: the placements of a shorter run of
   * requests are a prefix of those of a longer one, and each request adds at
   * most one placement.
   */
  lemma {:induction false} RunExtends(sprites: seq<Sprite>, reqs: seq<Request>, n: nat)
    requires ValidRequests(sprites, reqs) && n <= |reqs|
    ensures |Run(sprites, reqs[..n])| <= |Run(sprites, reqs)| <= |Run(sprites, reqs[..n])| + |reqs| - n
    ensures Run(sprites, reqs)[..|Run(sprites, reqs[..n])|] == Run(sprites, reqs[..n])
  {
    if n < |reqs| {
      var prefix := reqs[..|reqs| - 1];
      assert prefix[..n] == reqs[..n];
      RunExtends(sprites, prefix, n);
      var before := Run(sprites, prefix);
      var after := Run(sprites, reqs);
      assert after[..|before|] == before;
    } else {
      assert reqs[..n] == reqs;
    }
  }

  /** A canvas pixel covered by no placed box is still white. */
  lemma {:induction false} PaintedOutsideIsWhite(placed: seq<Placed>, i: int, j: int, c: nat)
    requires Consistent(placed) && c < 3
    requires forall k :: 0 <= k < |placed| ==> !Contains(placed[k].box, i, j)
    ensures Painted(placed, i, j, c) == 255
  {
    if placed != [] {
      var prefix := placed[..|placed| - 1];
      assert forall k :: 0 <= k < |prefix| ==> prefix[k] == placed[k];
      PaintedOutsideIsWhite(prefix, i, j, c);
    }
  }

  /**
   * Because boxes do not overlap, a pixel inside the box of instance `k` shows
   * that sprite laid over white: its own colour for an opaque sprite, the blend
   * with white for a sprite with alpha.
   */
  lemma {:induction false} PaintedInsideShowsSprite(placed: seq<Placed>, k: nat, i: int, j: int, c: nat)
    requires Consistent(placed) && PairwiseDisjoint(Boxes(placed)) && c < 3
    requires k < |placed| && Contains(placed[k].box, i, j)
    ensures Painted(placed, i, j, c) ==
              Layer(placed[k].image, i - placed[k].box.y, j - placed[k].box.x, c, 255)
  {
    var n := |placed| - 1;
    var prefix := placed[..n];
    assert forall m :: 0 <= m < |prefix| ==> prefix[m] == placed[m];
    assert Boxes(prefix) == Boxes(placed)[..n];
    if k == n {
      forall m | 0 <= m < |prefix| ensures !Contains(prefix[m].box, i, j) {
        assert !Overlaps(Boxes(placed)[m], Boxes(placed)[k]);
        OverlapsIffSharedPixel(placed[m].box, placed[k].box);
      }
      PaintedOutsideIsWhite(prefix, i, j, c);
    } else {
      assert !Contains(placed[n].box, i, j) by {
        assert !Overlaps(Boxes(placed)[n], Boxes(placed)[k]);
        OverlapsIffSharedPixel(placed[n].box, placed[k].box);
      }
      PaintedInsideShowsSprite(prefix, k, i, j, c);
    }
  }

  /**
   * The trim keeps a fully transparent sprite whole, so such a sprite that
   * passes the size filter and finds room is still given a box and an
   * annotation line, although pasting it changes no canvas pixel.
   */
  lemma TransparentSpriteIsAnnotated(sprites: seq<Sprite>, placed: seq<Placed>, req: Request)
    requires ValidRequest(sprites, req) && req.rotated.alpha.Some?
    requires AllClear(req.rotated.alpha.value, req.rotated.height, req.rotated.width)
    requires Admissible(req.rotated)
    requires FirstFree(Boxes(placed), req.rotated.width, req.rotated.height, req.draws, 0).Some?
    ensures var r := Step(sprites, placed, req);
            |r| == |placed| + 1 && r[|placed|].image == req.rotated &&
            forall i, j, c, under :: 0 <= i < req.rotated.height && 0 <= j < req.rotated.width && 0 <= c < 3 ==>
              Layer(r[|placed|].image, i, j, c, under) == under
  {
  }

  // ---------------------------------------------------------------------------
  // The imperative sample loop
  // ---------------------------------------------------------------------------

  /**
   * The body of `for _ in range(num_imagenes)` once a sprite is chosen: trim,
   * size filter, placement search, then paste, annotation line and box.
   */
  method PlaceInstance(fondo: array3<Byte>, sprites: seq<Sprite>, req: Request,
                       cajas: seq<Rect>, lines: seq<Annotation>, ghost placed: seq<Placed>)
    returns (cajas': seq<Rect>, lines': seq<Annotation>, ghost placed': seq<Placed>)
    requires IsCanvas(fondo) && ValidRequest(sprites, req)
    requires Consistent(placed) && PairwiseDisjoint(Boxes(placed))
    requires cajas == Boxes(placed) && lines == Annotations(placed)
    requires forall i, j, c :: 0 <= i < Size && 0 <= j < Size && 0 <= c < 3 ==>
               fondo[i, j, c] == Painted(placed, i, j, c)
    modifies fondo
    ensures placed' == Step(sprites, placed, req)
    ensures Consistent(placed') && PairwiseDisjoint(Boxes(placed'))
    ensures cajas' == Boxes(placed') && lines' == Annotations(placed')
    ensures forall i, j, c :: 0 <= i < Size && 0 <= j < Size && 0 <= c < 3 ==>
              fondo[i, j, c] == Painted(placed', i, j, c)
  {
    cajas', lines', placed' := cajas, lines, placed;
    StepKeepsInvariant(sprites, placed, req);
    var sprite := sprites[req.choice];
    var img := Trim(req.rotated);
    if !Admissible(img) {
      return;
    }
    var found, _ := FindPlacement(cajas, img.width, img.height, req.draws);
    if found.None? {
      return;
    }
    var b := found.value;
    Paste(fondo, img, b);
    lines' := lines + [Annotate(sprite.classId, b)];
    cajas' := cajas + [b];
    placed' := placed + [Placed(sprite.classId, b, img)];
    assert placed'[..|placed|] == placed;
  }

  /**
   * `generar_imagen`: starts from a white canvas and, for each of the
   * `num_imagenes` requested instances, trims the transformed sprite, skips it
   * when it fails the size filter or finds no room, and otherwise pastes it,
   * writes its annotation line and appends its box to `cajas`.  The canvas,
   * the boxes and the lines are exactly those of `Run` on the requests used.
   */
  method GenerateImage(sprites: seq<Sprite>, numImagenes: int, requests: seq<Request>)
    returns (fondo: array3<Byte>, cajas: seq<Rect>, lines: seq<Annotation>)
    requires Iterations(sprites, numImagenes) <= |requests|
    requires ValidRequests(sprites, requests)
    ensures fresh(fondo) && IsCanvas(fondo)
    ensures var placed := Run(sprites, requests[..Iterations(sprites, numImagenes)]);
            cajas == Boxes(placed) && lines == Annotations(placed) &&
            forall i, j, c :: 0 <= i < Size && 0 <= j < Size && 0 <= c < 3 ==>
              fondo[i, j, c] == Painted(placed, i, j, c)
    ensures |lines| == |cajas| <= Iterations(sprites, numImagenes)
    ensures PairwiseDisjoint(cajas) && forall k :: 0 <= k < |cajas| ==> InCanvas(cajas[k])
  {
    fondo := new Byte[Size, Size, 3]((i, j, c) => 255);
    cajas := [];
    lines := [];
    ghost var placed: seq<Placed> := [];
    var n := 0;
    while n < numImagenes
      invariant 0 <= n <= Iterations(sprites, numImagenes)
      invariant |sprites| == 0 ==> n == 0
      invariant placed == Run(sprites, requests[..n])
      invariant Consistent(placed) && PairwiseDisjoint(Boxes(placed))
      invariant cajas == Boxes(placed) && lines == Annotations(placed) && |placed| <= n
      invariant forall i, j, c :: 0 <= i < Size && 0 <= j < Size && 0 <= c < 3 ==>
                  fondo[i, j, c] == Painted(placed, i, j, c)
    {
      if |sprites| == 0 {
        break;
      }
      assert ValidRequest(sprites, requests[n]);
      cajas, lines, placed := PlaceInstance(fondo, sprites, requests[n], cajas, lines, placed);
      assert requests[..n + 1][..n] == requests[..n];
      n := n + 1;
    }
    assert requests[..n] == requests[..Iterations(sprites, numImagenes)];
  }
}
