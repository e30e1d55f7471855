# Escape-time Mandelbrot rasteriser, modelled in Dafny

The program paints an 800×800 picture of the Mandelbrot set and writes it
as a binary pixel map (P6). Pixel `(x, y)` stands for the complex number
`(x − 400)/200 + (y − 400)/200·i`. A pixel is black (0) when the orbit
`z ← z² + c` from `z = 0` stays within modulus 2 for 1000 steps, and white
(255) as soon as an iterate leaves that disc. The buffer is filled row by
row. The file is the header `P6\n800 800\n255\n` followed by each grey byte
repeated three times.

The model has six modules, one per stage of that pipeline:

- `ComplexPlane` (complex.dfy): the source's `complex_t`, with its
  `square` formula and the squared modulus. Each part is an exact `real`
  instead of a `double`.
- `Escape` (escape.dfy): the orbit (`Iterate`) and the bounded escape test
  `InMandelbrot`. The iteration cap is a parameter; `MAX_ITER` is 1000.
- `Viewport` (viewport.dfy): `WIDTH`, `HEIGHT` and the pixel-to-plane map
  `MapToComplex`, with what membership means for a pixel.
- `Raster` (raster.dfy): the row-major buffer, the reference image
  `Image(maxIter)` and the nested fill loop `GenerateImage`.
- `Ppm` (ppm.dfy): the decimal `%d` rendering used in the header, the
  byte layout `Encode`, the loop `WriteImage` that produces it, and a
  reader `Decode` that serves as its inverse.
- `Program` (program.dfy): one run, generation then serialisation. Its
  result is the byte sequence the program writes to `mandelbrot.ppm`.

Two modelling choices matter when reading the contracts:

- The source takes `sqrt(re² + im²)` and compares it with 2. The model
  compares `re² + im²` with 4. `ComplexPlane.ModulusCompare` shows that the
  two tests agree for the non-negative square root.
- The source's `in_mandelbrot` returns an `int`, and `generate_image` tests
  it for non-zero. `Escape.InMandelbrot` also returns 0 or 1, and
  `Raster.PixelShade` makes the same non-zero test.

The code divides `x − WIDTH/2` by `WIDTH/4 = 200`, so the window is
`[-2, 1.995]` on both axes, pixel `(0, 0)` maps to `−2 − 2i` (see
`Viewport.MapRange`), and the corner pixels escape at the first iterate
because `|−2 − 2i|² = 8 > 4`.

## Model

| member | source | states |
|---|---|---|
| ComplexPlane.SquareIsProduct | mandelbrot.c:18-23 | the source's formula `(re² − im², 2·re·im)` is the complex product `z·z` |
| ComplexPlane.ModulusCompare | mandelbrot.c:26-28 | for the non-negative `r` with `r² = re² + im²`, `r > 2` holds exactly when `re² + im² > 4`, so the squared test decides the same escape as `sqrt(...) > 2` |
| ComplexPlane.ConjModulus | mandelbrot.c:27 | conjugation is an involution and leaves the modulus unchanged |
| ComplexPlane.SquareConj | mandelbrot.c:20-21 | `square` commutes with conjugation |
| ComplexPlane.AddConj | mandelbrot.c:36-37 | adding `c` part by part commutes with conjugation |
| Escape.InMandelbrot | mandelbrot.c:31-43 | returns 0 or 1; 1 exactly when none of the first `maxIter` iterates from `z = 0` has `re² + im² > 4`; when it returns 0 there is a first escaping iterate `k ≤ maxIter` with all earlier iterates bounded |
| Escape.BoundedAt | mandelbrot.c:34-41 | a point that passes the loop for `n` steps has no iterate `1 ≤ k ≤ n` with `re² + im² > 4` |
| Escape.EscapeWitness | mandelbrot.c:34-41 | a point that fails the loop for `n` steps has an iterate `1 ≤ k ≤ n` with `re² + im² > 4`, and the lemma returns it |
| Escape.BoundedIff | mandelbrot.c:34-41 | the step-by-step check `Bounded(c, n)` holds exactly when no iterate `1 ≤ k ≤ n` has `re² + im² > 4` |
| Escape.BoundedMonotone | mandelbrot.c:34 | a point bounded for a cap is bounded for every smaller cap, so once the loop has returned 0 no larger cap can give 1 |
| Escape.FirstIterate | mandelbrot.c:33-37 | the first iterate from `z = 0` is `c` itself |
| Escape.EscapeAtFirst | mandelbrot.c:33-39 | a `c` with `|c|² > 4` is rejected for every cap of at least one step |
| Escape.IterateZero | mandelbrot.c:33-37 | for `c = 0` every iterate is `0` |
| Escape.ZeroIsMember | mandelbrot.c:33-42 | `c = 0` passes the test for every cap |
| Escape.IterateConj | mandelbrot.c:34-37 | the orbit of `conj c` is the conjugate of the orbit of `c` |
| Escape.BoundedConj | mandelbrot.c:34-40 | `conj c` passes the test exactly when `c` does |
| Viewport.MapConstants | mandelbrot.c:46-50 | the integer constants `WIDTH/2` and `WIDTH/4` are 400 and 200, so pixel `(x, y)` maps to `((x − 400)/200, (y − 400)/200)` |
| Viewport.MapCenter | mandelbrot.c:46-50 | pixel `(400, 400)` maps to `0 + 0i` |
| Viewport.MapScale | mandelbrot.c:47-48 | one pixel right adds 1/200 to the real part only; one pixel down adds 1/200 to the imaginary part only |
| Viewport.MapRange | mandelbrot.c:46-50 | for integer `x`, `0 ≤ x < 800` holds exactly when the real part lies in `[-2, 1.995]`, and likewise `y` for the imaginary part |
| Viewport.MapInjective | mandelbrot.c:46-50 | distinct pixels map to distinct points |
| Viewport.MapConj | mandelbrot.c:48 | pixel `(x, 800 − y)` maps to the conjugate of pixel `(x, y)` |
| Viewport.CenterIsMember | mandelbrot.c:31-50 | the centre pixel passes the membership test for every cap |
| Viewport.CornerOutside | mandelbrot.c:47-48 | each of the four corner pixels maps to a point with squared modulus above 4 |
| Viewport.CornersEscape | mandelbrot.c:31-50 | the four corner pixels `(0,0)`, `(799,0)`, `(0,799)`, `(799,799)` fail the test for every cap of at least one step |
| Viewport.PixelSymmetry | mandelbrot.c:31-50 | for `0 < y < 800`, pixel `(x, 800 − y)` is in the image and passes the test exactly when `(x, y)` does |
| Raster.IndexInRange | mandelbrot.c:59-61 | `y*WIDTH + x` of an in-image pixel lies in `[0, 640000)`, and its column and row give back `x` and `y` |
| Raster.IndexOnto | mandelbrot.c:55-61 | every buffer position is `y*WIDTH + x` of exactly the pixel in its column and row |
| Raster.IndexInjective | mandelbrot.c:59-61 | two in-image pixels share a buffer cell only if they are the same pixel |
| Raster.ImageAt | mandelbrot.c:55-63 | cell `y*WIDTH + x` of the reference image is 0 when pixel `(x, y)` is a member and 255 otherwise |
| Raster.ImageSymmetry | mandelbrot.c:55-63 | cells of pixels `(x, y)` and `(x, 800 − y)` hold the same value |
| Raster.ImageCells | mandelbrot.c:55-63 | every cell holds its own pixel's shade, and no cell holds anything but 0 or 255 |
| Raster.PixelShade | mandelbrot.c:57-62 | mapping the pixel, running the test and choosing 0 on a non-zero result yields the reference image's cell for that pixel |
| Raster.GenerateImage | mandelbrot.c:53-65 | the filled buffer has 640000 cells; cell `y*WIDTH + x` is 0 exactly for member pixels and 255 otherwise; only 0 and 255 occur; it equals the reference image; every cell is stored exactly once |
| Ppm.Decimal | mandelbrot.c:72 | `%d` prints a non-empty run of decimal digits with no leading zero (except for 0 itself) |
| Ppm.DecimalValue | mandelbrot.c:72 | reading the printed digits back gives the number |
| Ppm.HeaderBytes | mandelbrot.c:72 | the header printed for 800, 800, 255 is exactly the 15 bytes `P6\n800 800\n255\n` |
| Ppm.Triples | mandelbrot.c:73-79 | the pixel records are three bytes per buffer cell |
| Ppm.TriplesAt | mandelbrot.c:75-77 | byte `j < 3` of record `k` is buffer cell `k` |
| Ppm.EncodeLayout | mandelbrot.c:72-79 | the file is `15 + 3·640000` bytes, starts with the header, and its byte at `15 + 3k + j` is buffer cell `k` |
| Ppm.WriteImage | mandelbrot.c:68-81 | the header followed by the nested row-major loop of three writes per pixel produces exactly the layout `Encode` |
| Ppm.DecodeEncode | mandelbrot.c:72-79 | reading back a written file gives back the buffer |
| Ppm.EncodeDecode | mandelbrot.c:72-79 | any byte sequence that reads back as a buffer is exactly the file written for that buffer |
| Program.Render | mandelbrot.c:84-96 | one run writes the encoding of the reference image for cap 1000: 15 + 3·640000 bytes, the fixed header, every record three equal bytes each 0 or 255, a black centre pixel and four white corner pixels; as a function of nothing, two runs write the same bytes |
| Program.ReferenceGrey | mandelbrot.c:53-79 | every record of the file written for cap 1000 is three equal bytes, each 0 or 255 |
| Program.GreyRecords | mandelbrot.c:73-79 | a buffer of only 0 and 255 is written as records whose three bytes agree and are each 0 or 255 |
| Program.PixelBytes | mandelbrot.c:72-79 | the three bytes of pixel `(x, y)`'s record are at `15 + 3·(y*WIDTH + x)` and equal its buffer cell |
| Program.FileSymmetry | mandelbrot.c:53-79 | in the written file the records of pixels `(x, y)` and `(x, 800 − y)` are equal, for `0 < y < 800` |

## Left out

- File handling (`fopen`, `fclose`, and the missing check of `fopen`'s result) is left out. `write_image` is modelled as the byte sequence it writes; the `fprintf` and `fwrite` calls become appends to that sequence.
- The timing (`clock`, `CLOCKS_PER_SEC`) and the console line from `printf` are left out. Neither affects the image.
- `main` and the function pointer passed to `measure_time` are left out. `Program.Render` calls generation and serialisation directly.
- `malloc` and `free` are left out. `Raster.GenerateImage` allocates the buffer itself, in place of `measure_time`'s `malloc`, and returns its contents instead of filling a buffer passed in by the caller. The model allocates a zero-initialised Dafny array where the source has uninitialised heap memory. `Raster.GenerateImage` proves that every cell is stored before it is read, so the initial contents do not matter. A failed `malloc` is not modelled.
- IEEE-754 `double` rounding and `sqrt` are not modelled. The arithmetic is exact over `real`. For points whose orbit comes within rounding distance of the escape bound, the compiled program can decide differently from the model.
- The 1000-step cap and the 640000 pixels are never evaluated concretely. The properties hold for every iteration cap, and `Program.Render` instantiates them with 1000.
- C `int` overflow is not modelled. The largest value computed from a coordinate, `y*WIDTH + x ≤ 639999`, fits easily in 32 bits.
