/**
 * The bounded first-fit search of `generar_imagen`: up to `intentos = 100`
 * candidate positions, each tested against every box already placed in the
 * sample (`cajas`) with `sobreponen`.  The random positions
 * `(random.randint(0, 640 - w), random.randint(0, 640 - h))` are supplied as a
 * sequence of draws.
 */
module Placement {
  import opened Wrappers
  import opened Geometry
  import opened Compositor

  /** `intentos`: the number of candidate positions tried for one sprite. */
  const MaxAttempts: nat := 100

  /** One pair of random draws `(x, y)`. */
  datatype Pos = Pos(x: int, y: int)

  /** What `random.randint(0, 640 - w)` and `random.randint(0, 640 - h)` can return. */
  predicate DrawInRange(p: Pos, w: int, h: int)
  {
    0 <= p.x <= Size - w && 0 <= p.y <= Size - h
  }

  /** `nueva_caja = (x, y, w, h)`. */
  function Candidate(p: Pos, w: int, h: int): Rect
  {
    Rect(p.x, p.y, w, h)
  }

  /** The box overlaps some box in `cajas`. */
  predicate CollidesWithAny(box: Rect, cajas: seq<Rect>)
  {
    exists k :: 0 <= k < |cajas| && Overlaps(box, cajas[k])
  }

  /** The inner loop `for c in cajas: if sobreponen(nueva_caja, c): colision = True; break`. */
  method CheckCollision(box: Rect, cajas: seq<Rect>) returns (colision: bool)
    ensures colision <==> CollidesWithAny(box, cajas)
  {
    colision := false;
    var k := 0;
    while k < |cajas|
      invariant 0 <= k <= |cajas|
      invariant forall m :: 0 <= m < k ==> !Overlaps(box, cajas[m])
    {
      if Overlaps(box, cajas[k]) {
        colision := true;
        break;
      }
      k := k + 1;
    }
  }

  /**
   * The index of the first draw at or after `from` whose candidate box collides
   * with nothing in `cajas`, or `None` if every one of them collides.
   */
  ghost function FirstFree(cajas: seq<Rect>, w: int, h: int, draws: seq<Pos>, from: nat): (r: Option<nat>)
    requires from <= |draws|
    ensures r.Some? ==> from <= r.value < |draws| && !CollidesWithAny(Candidate(draws[r.value], w, h), cajas)
    ensures r.Some? ==> forall k :: from <= k < r.value ==> CollidesWithAny(Candidate(draws[k], w, h), cajas)
    ensures r.None? ==> forall k :: from <= k < |draws| ==> CollidesWithAny(Candidate(draws[k], w, h), cajas)
    decreases |draws| - from
  {
    if from == |draws| then None
    else if !CollidesWithAny(Candidate(draws[from], w, h), cajas) then Some(from)
    else FirstFree(cajas, w, h, draws, from + 1)
  }

  /**
   * The loop `for _ in range(intentos)`: it takes the first candidate that
   * collides with no box in `cajas` and stops there, or gives up after
   * `MaxAttempts` candidates.  `attempts` is the number of draws consumed.
   */
  method FindPlacement(cajas: seq<Rect>, w: int, h: int, draws: seq<Pos>) returns (found: Option<Rect>, attempts: nat)
    requires |draws| == MaxAttempts
    requires forall k :: 0 <= k < |draws| ==> DrawInRange(draws[k], w, h)
    ensures 1 <= attempts <= MaxAttempts
    ensures found.None? <==> FirstFree(cajas, w, h, draws, 0).None?
    ensures found.None? ==> attempts == MaxAttempts
    ensures found.Some? ==> var k := FirstFree(cajas, w, h, draws, 0).value;
              found.value == Candidate(draws[k], w, h) && attempts == k + 1
    ensures found.Some? ==> found.value.w == w && found.value.h == h && InCanvas(found.value) &&
                            !CollidesWithAny(found.value, cajas)
  {
    found := None;
    attempts := 0;
    while attempts < MaxAttempts && found.None?
      invariant 0 <= attempts <= MaxAttempts
      invariant found.None? ==>
                  forall k :: 0 <= k < attempts ==> CollidesWithAny(Candidate(draws[k], w, h), cajas)
      invariant found.Some? ==>
                  1 <= attempts && found.value == Candidate(draws[attempts - 1], w, h) &&
                  !CollidesWithAny(found.value, cajas) &&
                  forall k :: 0 <= k < attempts - 1 ==> CollidesWithAny(Candidate(draws[k], w, h), cajas)
    {
      var nueva := Candidate(draws[attempts], w, h);
      var colision := CheckCollision(nueva, cajas);
      if !colision {
        found := Some(nueva);
      }
      attempts := attempts + 1;
    }
    ghost var first := FirstFree(cajas, w, h, draws, 0);
    if found.Some? {
      assert first.Some? && first.value == attempts - 1;
    } else {
      assert first.None?;
    }
  }
}
