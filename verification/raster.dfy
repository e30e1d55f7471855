/**
  The pixel buffer and its fill: an 800×800 row-major array of grey bytes,
  0 for a member of the set and 255 for a point that escaped.
 */
module Raster {
  import opened Escape
  import opened Viewport

  /** An unsigned 8-bit value, the source's `uint8_t`. */
  newtype byte = b: int | 0 <= b < 256

  /** Number of cells in the buffer, `WIDTH*HEIGHT`. */
  const PIXELS: int := WIDTH * HEIGHT

  /** Grey level of a member pixel. */
  const BLACK: byte := 0

  /** Grey level of an escaped pixel. */
  const WHITE: byte := 255

  /** Row-major position of pixel `(x, y)` in the buffer. */
  function Index(x: int, y: int): int
  {
    y * WIDTH + x
  }

  /** Column of buffer position `i`. */
  function Column(i: int): int
  {
    i % WIDTH
  }

  /** Row of buffer position `i`. */
  function Row(i: int): int
  {
    i / WIDTH
  }

  /** Grey level for a membership verdict. */
  function Shade(member: bool): byte
  {
    if member then BLACK else WHITE
  }

  /** The finished image as a function of the iteration cap: cell `i` shows pixel `(Column(i), Row(i))`. */
  function Image(maxIter: nat): seq<byte>
  {
    seq(PIXELS, i requires 0 <= i < PIXELS => Shade(PixelMember(Column(i), Row(i), maxIter)))
  }

  /**
    Every pixel of the image has a cell inside the buffer, and the cell gives
    the pixel back: `Index` is one-to-one on `[0, WIDTH) × [0, HEIGHT)`.
   */
  lemma IndexInRange(x: int, y: int)
    requires 0 <= x < WIDTH && 0 <= y < HEIGHT
    ensures 0 <= Index(x, y) < PIXELS
    ensures Column(Index(x, y)) == x && Row(Index(x, y)) == y
  {
    assert WIDTH == 800 && HEIGHT == 800;
    assert y * 800 <= 799 * 800;
    assert (y * 800 + x) / 800 == y;
  }

  /** Every cell of the buffer belongs to exactly one pixel: `Index` is onto. */
  lemma IndexOnto(i: int)
    requires 0 <= i < PIXELS
    ensures 0 <= Column(i) < WIDTH && 0 <= Row(i) < HEIGHT
    ensures Index(Column(i), Row(i)) == i
  {
    assert WIDTH == 800 && HEIGHT == 800;
  }

  /** Two pixels of the image share a cell only if they are the same pixel. */
  lemma IndexInjective(x1: int, y1: int, x2: int, y2: int)
    requires 0 <= x1 < WIDTH && 0 <= y1 < HEIGHT
    requires 0 <= x2 < WIDTH && 0 <= y2 < HEIGHT
    requires Index(x1, y1) == Index(x2, y2)
    ensures x1 == x2 && y1 == y2
  {
    IndexInRange(x1, y1);
    IndexInRange(x2, y2);
  }

  /** Cell `Index(x, y)` of `Image` holds the shade of pixel `(x, y)`. */
  lemma ImageAt(maxIter: nat, x: int, y: int)
    requires 0 <= x < WIDTH && 0 <= y < HEIGHT
    ensures |Image(maxIter)| == PIXELS
    ensures Image(maxIter)[Index(x, y)] == if PixelMember(x, y, maxIter) then BLACK else WHITE
  {
    IndexInRange(x, y);
  }

  /** The image is mirror-symmetric in the real axis: rows `y` and `HEIGHT − y` agree. */
  lemma ImageSymmetry(maxIter: nat, x: int, y: int)
    requires 0 <= x < WIDTH && 0 < y < HEIGHT
    ensures 0 <= Index(x, y) < PIXELS && 0 <= Index(x, HEIGHT - y) < PIXELS
    ensures Image(maxIter)[Index(x, y)] == Image(maxIter)[Index(x, HEIGHT - y)]
  {
    ImageAt(maxIter, x, y);
    ImageAt(maxIter, x, HEIGHT - y);
    PixelSymmetry(x, y, maxIter);
  }

  /** Every cell of `Image` holds the shade of its own pixel, and only black or white. */
  lemma ImageCells(maxIter: nat)
    ensures |Image(maxIter)| == PIXELS
    ensures forall x, y :: 0 <= x < WIDTH && 0 <= y < HEIGHT ==>
              Image(maxIter)[Index(x, y)] == if PixelMember(x, y, maxIter) then BLACK else WHITE
    ensures forall i :: 0 <= i < PIXELS ==> Image(maxIter)[i] == BLACK || Image(maxIter)[i] == WHITE
  {
    forall x, y | 0 <= x < WIDTH && 0 <= y < HEIGHT
      ensures Image(maxIter)[Index(x, y)] == if PixelMember(x, y, maxIter) then BLACK else WHITE
    {
      ImageAt(maxIter, x, y);
    }
  }

  /**
    The grey level of one pixel: map it to the plane, run the membership
    test, and choose 0 for a member and 255 otherwise.
   */
  method PixelShade(x: int, y: int, maxIter: nat) returns (b: byte)
    requires 0 <= x < WIDTH && 0 <= y < HEIGHT
    ensures 0 <= Index(x, y) < PIXELS
    ensures b == Image(maxIter)[Index(x, y)]
  {
    var c := MapToComplex(x, y);
    var r := InMandelbrot(c, maxIter);
    ImageAt(maxIter, x, y);
    if r != 0 {
      b := BLACK;
    } else {
      b := WHITE;
    }
  }

  /**
    Fills the buffer in row-major order, `y` outer and `x` inner, storing 0
    for a pixel whose point passes the membership test and 255 otherwise.
    The ghost `writes` counts the stores to each cell: every cell is stored
    exactly once.
   */
  method GenerateImage(maxIter: nat) returns (image: seq<byte>, ghost writes: seq<nat>)
    ensures |image| == PIXELS
    ensures forall x, y :: 0 <= x < WIDTH && 0 <= y < HEIGHT ==>
              image[Index(x, y)] == if PixelMember(x, y, maxIter) then BLACK else WHITE
    ensures forall i :: 0 <= i < |image| ==> image[i] == BLACK || image[i] == WHITE
    ensures image == Image(maxIter)
    ensures |writes| == PIXELS && forall i :: 0 <= i < PIXELS ==> writes[i] == 1
  {
    var buffer := new byte[PIXELS];
    writes := seq(PIXELS, _ => 0);
    var y := 0;
    while y < HEIGHT
      invariant 0 <= y <= HEIGHT
      invariant |writes| == PIXELS
      invariant forall i :: 0 <= i < Index(0, y) ==> buffer[i] == Image(maxIter)[i]
      invariant forall i :: 0 <= i < PIXELS ==> writes[i] == if i < Index(0, y) then 1 else 0
    {
      var x := 0;
      while x < WIDTH
        invariant 0 <= x <= WIDTH
        invariant |writes| == PIXELS
        invariant forall i :: 0 <= i < Index(x, y) ==> buffer[i] == Image(maxIter)[i]
        invariant forall i :: 0 <= i < PIXELS ==> writes[i] == if i < Index(x, y) then 1 else 0
      {
        var shade := PixelShade(x, y, maxIter);
        buffer[y * WIDTH + x] := shade;
        writes := writes[Index(x, y) := writes[Index(x, y)] + 1];
        x := x + 1;
      }
      y := y + 1;
    }
    image := buffer[..];
    ImageCells(maxIter);
  }
}
