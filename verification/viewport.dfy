/**
  The viewport: which point of the complex plane each pixel of the
  800×800 image stands for, and what the membership test says about pixels.
 */
module Viewport {
  import opened ComplexPlane
  import opened Escape

  /** Image width in pixels. */
  const WIDTH: int := 800

  /** Image height in pixels. */
  const HEIGHT: int := 800

  /**
    Pixel `(x, y)` stands for `(x − WIDTH/2)/(WIDTH/4) + (y − HEIGHT/2)/(HEIGHT/4)·i`.
    The halving and quartering are C integer divisions of positive constants,
    so Dafny's `/` computes the same 400 and 200. The scale is 200 pixels
    per unit and the centre pixel is the origin.
   */
  function MapToComplex(x: int, y: int): Complex
  {
    Complex((x - WIDTH / 2) as real / (WIDTH / 4) as real,
            (y - HEIGHT / 2) as real / (HEIGHT / 4) as real)
  }

  /** Whether pixel `(x, y)` passes the bounded escape test with cap `n`. */
  predicate PixelMember(x: int, y: int, n: nat)
  {
    Bounded(MapToComplex(x, y), n)
  }

  /** The map with the constants worked out: 400 pixels of offset, 200 per unit. */
  lemma MapConstants(x: int, y: int)
    ensures MapToComplex(x, y) == Complex((x - 400) as real / 200.0, (y - 400) as real / 200.0)
  {
    assert WIDTH / 2 == 400 && WIDTH / 4 == 200;
    assert HEIGHT / 2 == 400 && HEIGHT / 4 == 200;
  }

  /** The centre pixel `(400, 400)` stands for the origin. */
  lemma MapCenter()
    ensures MapToComplex(WIDTH / 2, HEIGHT / 2) == Zero
  {
  }

  /** Moving one pixel right or down moves the point by exactly 1/200. */
  lemma MapScale(x: int, y: int)
    ensures MapToComplex(x + 1, y).re == MapToComplex(x, y).re + 1.0 / 200.0
    ensures MapToComplex(x, y + 1).im == MapToComplex(x, y).im + 1.0 / 200.0
    ensures MapToComplex(x + 1, y).im == MapToComplex(x, y).im
    ensures MapToComplex(x, y + 1).re == MapToComplex(x, y).re
  {
    MapConstants(x, y);
    MapConstants(x + 1, y);
    MapConstants(x, y + 1);
  }

  /**
    A column lies inside the image exactly when its real part lies in
    `[-2, 1.995]`, and a row exactly when its imaginary part does.
   */
  lemma MapRange(x: int, y: int)
    ensures 0 <= x < WIDTH <==> -2.0 <= MapToComplex(x, y).re <= 1.995
    ensures 0 <= y < HEIGHT <==> -2.0 <= MapToComplex(x, y).im <= 1.995
  {
    MapConstants(x, y);
    Scaled(x);
    Scaled(y);
  }

  /** For an integer coordinate, the scaled offset lies in `[-2, 1.995]` exactly on `0 .. 799`. */
  lemma Scaled(v: int)
    ensures 0 <= v < 800 <==> -2.0 <= (v - 400) as real / 200.0 <= 1.995
  {
    var t := (v - 400) as real / 200.0;
    assert t * 200.0 == (v - 400) as real;
    assert -2.0 <= t <==> -400 <= v - 400;
    assert t <= 1.995 <==> (v - 400) as real <= 399.0;
  }

  /** Distinct pixels stand for distinct points. */
  lemma MapInjective(x1: int, y1: int, x2: int, y2: int)
    requires MapToComplex(x1, y1) == MapToComplex(x2, y2)
    ensures x1 == x2 && y1 == y2
  {
    MapConstants(x1, y1);
    MapConstants(x2, y2);
  }

  /** Row `HEIGHT − y` is the mirror image of row `y` in the real axis. */
  lemma MapConj(x: int, y: int)
    ensures MapToComplex(x, HEIGHT - y) == Conj(MapToComplex(x, y))
  {
    MapConstants(x, y);
    MapConstants(x, HEIGHT - y);
  }

  /** The centre pixel is a member for every iteration cap. */
  lemma CenterIsMember(n: nat)
    ensures PixelMember(WIDTH / 2, HEIGHT / 2, n)
  {
    MapCenter();
    ZeroIsMember(n);
  }

  /** The point of a corner pixel lies outside the radius-2 disc. */
  lemma CornerOutside(x: int, y: int)
    requires x == 0 || x == WIDTH - 1
    requires y == 0 || y == HEIGHT - 1
    ensures ModulusSq(MapToComplex(x, y)) > 4.0
  {
    MapConstants(x, y);
    var c := MapToComplex(x, y);
    assert c.re == -2.0 || c.re == 1.995;
    assert c.im == -2.0 || c.im == 1.995;
    assert c.re * c.re >= 3.98 && c.im * c.im >= 3.98;
  }

  /** All four corner pixels escape as soon as at least one iteration is allowed. */
  lemma CornersEscape(n: nat)
    requires 1 <= n
    ensures !PixelMember(0, 0, n)
    ensures !PixelMember(WIDTH - 1, 0, n)
    ensures !PixelMember(0, HEIGHT - 1, n)
    ensures !PixelMember(WIDTH - 1, HEIGHT - 1, n)
  {
    CornerOutside(0, 0);
    EscapeAtFirst(MapToComplex(0, 0), n);
    CornerOutside(WIDTH - 1, 0);
    EscapeAtFirst(MapToComplex(WIDTH - 1, 0), n);
    CornerOutside(0, HEIGHT - 1);
    EscapeAtFirst(MapToComplex(0, HEIGHT - 1), n);
    CornerOutside(WIDTH - 1, HEIGHT - 1);
    EscapeAtFirst(MapToComplex(WIDTH - 1, HEIGHT - 1), n);
  }

  /** Pixels `(x, y)` and `(x, HEIGHT − y)` agree, for every row whose mirror is in the image. */
  lemma PixelSymmetry(x: int, y: int, n: nat)
    requires 0 <= x < WIDTH && 0 < y < HEIGHT
    ensures 0 < HEIGHT - y < HEIGHT
    ensures PixelMember(x, y, n) <==> PixelMember(x, HEIGHT - y, n)
  {
    MapConj(x, y);
    BoundedConj(MapToComplex(x, y), n);
  }
}
