/** The rectangle geometry of the flying hero: the square it occupies around
    its centre, and whether that square leaves the window. The hero's motion
    (`f32` velocity and position arithmetic) is not part of this model; the
    fields are carried only where an operation sets or keeps them. */
module Hero {
  import opened Base

  /** `POINT`. */
  datatype Point = Point(x: int, y: int)

  /** `Vector2`, with `f32` components taken as reals. */
  datatype Vector2 = Vector2(x: real, y: real)

  const ZERO: Vector2 := Vector2(0.0, 0.0)

  /** `VectorAxis`. */
  datatype VectorAxis = Horizontal | Vertical

  /** `FlyHero::DEFAULT_WIDTH` and `FlyHero::DEFAULT_HEIGHT`. */
  const DEFAULT_WIDTH: int := 100
  const DEFAULT_HEIGHT: int := 100

  /** `v / 2` on a `LONG`: the quotient is truncated toward zero. */
  function Half(v: int): (h: int)
    ensures v >= 0 ==> 0 <= v - 2 * h <= 1
    ensures v < 0 ==> -1 <= v - 2 * h <= 0
  {
    if v >= 0 then v / 2 else -((-v) / 2)
  }

  /** `FlyHero::center_to_rect`: the box reaching half the size to each side
      of (`x`, `y`). */
  function CenterToRect(x: int, y: int, width: int, height: int): (r: Rect)
    ensures r.left + r.right == 2 * x && r.top + r.bottom == 2 * y
    ensures width >= 0 ==> 0 <= width - (r.right - r.left) <= 1
    ensures height >= 0 ==> 0 <= height - (r.bottom - r.top) <= 1
  {
    Rect(x - Half(width), y - Half(height), x + Half(width), y + Half(height))
  }

  /** An even size is met exactly; in particular the default size gives a
      100 by 100 box. */
  lemma EvenSizeIsExact(x: int, y: int, width: nat, height: nat)
    requires width % 2 == 0 && height % 2 == 0
    ensures var r := CenterToRect(x, y, width, height);
            r.right - r.left == width && r.bottom - r.top == height
  {
  }

  lemma DefaultSize(x: int, y: int)
    ensures var r := CenterToRect(x, y, DEFAULT_WIDTH, DEFAULT_HEIGHT);
            r == Rect(x - 50, y - 50, x + 50, y + 50) &&
            r.right - r.left == 100 && r.bottom - r.top == 100
  {
    EvenSizeIsExact(x, y, DEFAULT_WIDTH, DEFAULT_HEIGHT);
  }

  /** `rect` lies inside `window` on all four sides (edges may touch). */
  predicate Within(rect: Rect, window: Rect) {
    window.left <= rect.left && rect.right <= window.right &&
    window.top <= rect.top && rect.bottom <= window.bottom
  }

  /** `FlyHero`, without its bitmaps. */
  class FlyHero {
    var centerRect: Rect
    var velocity: Vector2
    var position: Vector2

    /** `FlyHero::new`: a default-size box around `center`, at rest. */
    constructor (center: Point)
      ensures centerRect == CenterToRect(center.x, center.y, DEFAULT_WIDTH, DEFAULT_HEIGHT)
      ensures velocity == ZERO && position == Vector2(center.x as real, center.y as real)
    {
      centerRect := CenterToRect(center.x, center.y, DEFAULT_WIDTH, DEFAULT_HEIGHT);
      velocity := ZERO;
      position := Vector2(center.x as real, center.y as real);
    }

    /** `FlyHero::collides`: a horizontal overshoot is reported first, even
        when the box is also out vertically. */
    function Collides(window: Rect): (r: Option<VectorAxis>)
      reads this
      ensures r.None? <==> Within(centerRect, window)
      ensures r == Some(Horizontal) <==>
                centerRect.left < window.left || centerRect.right > window.right
      ensures r == Some(Vertical) <==>
                window.left <= centerRect.left && centerRect.right <= window.right &&
                (centerRect.top < window.top || centerRect.bottom > window.bottom)
    {
      var rect := centerRect;
      var isHorizontalCollision := rect.left < window.left || rect.right > window.right;
      var isVerticalCollision := rect.top < window.top || rect.bottom > window.bottom;
      if isHorizontalCollision then Some(Horizontal)
      else if isVerticalCollision then Some(Vertical)
      else None
    }

    /** `FlyHero::setPosition`: move the box to `center` and stop; `position`
        keeps its old value. */
    method SetPosition(center: Point)
      modifies this
      ensures centerRect == CenterToRect(center.x, center.y, DEFAULT_WIDTH, DEFAULT_HEIGHT)
      ensures velocity == ZERO && position == old(position)
    {
      var rect := CenterToRect(center.x, center.y, DEFAULT_WIDTH, DEFAULT_HEIGHT);
      velocity := ZERO;
      centerRect := rect;
    }
  }

  /** A hero placed with its centre at least 50 from every window edge does
      not collide. */
  lemma PlacedInsideDoesNotCollide(hero: FlyHero, center: Point, window: Rect)
    requires hero.centerRect == CenterToRect(center.x, center.y, DEFAULT_WIDTH, DEFAULT_HEIGHT)
    requires window.left + 50 <= center.x <= window.right - 50
    requires window.top + 50 <= center.y <= window.bottom - 50
    ensures hero.Collides(window).None?
  {
    DefaultSize(center.x, center.y);
  }
}
