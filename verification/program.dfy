/**
  The whole run: fill the buffer with the iteration cap the program is built
  with, then serialise it. The clock, the console line and the file handle
  around these two steps are not modelled; the result is the byte sequence
  the program writes to `mandelbrot.ppm`.
 */
module Program {
  import opened Escape
  import opened Viewport
  import opened Raster
  import opened Ppm

  /** Offset in the file of byte `j` of pixel `(x, y)`'s record. */
  function FileOffset(x: int, y: int, j: int): int
  {
    HEADER_LEN + 3 * Index(x, y) + j
  }

  /**
    Generates the image with `MAX_ITER` iterations and encodes it. The file is
    the fixed 15-byte header followed by 640000 records whose three bytes
    agree and are each 0 or 255. It is a function
    of nothing, so two runs write the same bytes. The centre pixel is black,
    the four corner pixels are white, and rows `y` and `800 − y` agree.
   */
  method Render() returns (file: seq<byte>)
    ensures file == Encode(Image(MAX_ITER))
    ensures |file| == HEADER_LEN + 3 * PIXELS == 15 + 3 * 640000
    ensures file[..HEADER_LEN] == Ascii(HEADER_TEXT)
    ensures forall j :: 0 <= j < 3 ==> file[FileOffset(WIDTH / 2, HEIGHT / 2, j)] == BLACK
    ensures forall j :: 0 <= j < 3 ==>
              && file[FileOffset(0, 0, j)] == WHITE
              && file[FileOffset(WIDTH - 1, 0, j)] == WHITE
              && file[FileOffset(0, HEIGHT - 1, j)] == WHITE
              && file[FileOffset(WIDTH - 1, HEIGHT - 1, j)] == WHITE
    ensures forall k :: 0 <= k < PIXELS ==>
              IsGrey(Record(file, k)) && (Record(file, k)[0] == BLACK || Record(file, k)[0] == WHITE)
  {
    var image, writes := GenerateImage(MAX_ITER);
    file := WriteImage(image);
    assert PIXELS == 640000;
    EncodeLayout(image, 0, 0);
    assert forall k :: 0 <= k < PIXELS ==>
             IsGrey(Record(file, k)) && (Record(file, k)[0] == BLACK || Record(file, k)[0] == WHITE) by {
      ReferenceGrey();
    }
    forall j | 0 <= j < 3
      ensures file[FileOffset(WIDTH / 2, HEIGHT / 2, j)] == BLACK
      ensures file[FileOffset(0, 0, j)] == WHITE
      ensures file[FileOffset(WIDTH - 1, 0, j)] == WHITE
      ensures file[FileOffset(0, HEIGHT - 1, j)] == WHITE
      ensures file[FileOffset(WIDTH - 1, HEIGHT - 1, j)] == WHITE
    {
      CenterIsMember(MAX_ITER);
      CornersEscape(MAX_ITER);
      PixelBytes(image, WIDTH / 2, HEIGHT / 2, j);
      PixelBytes(image, 0, 0, j);
      PixelBytes(image, WIDTH - 1, 0, j);
      PixelBytes(image, 0, HEIGHT - 1, j);
      PixelBytes(image, WIDTH - 1, HEIGHT - 1, j);
    }
  }

  /** Every record of the file written for cap `MAX_ITER` is grey, and black or white. */
  lemma ReferenceGrey()
    ensures |Encode(Image(MAX_ITER))| == HEADER_LEN + 3 * PIXELS
    ensures forall k :: 0 <= k < PIXELS ==>
              IsGrey(Record(Encode(Image(MAX_ITER)), k))
              && (Record(Encode(Image(MAX_ITER)), k)[0] == BLACK || Record(Encode(Image(MAX_ITER)), k)[0] == WHITE)
  {
    ImageCells(MAX_ITER);
    GreyRecords(Image(MAX_ITER));
  }

  /**
    A buffer holding only black and white cells is written as records whose
    three bytes agree and are each 0 or 255.
   */
  lemma GreyRecords(image: seq<byte>)
    requires |image| == PIXELS
    requires forall i :: 0 <= i < PIXELS ==> image[i] == BLACK || image[i] == WHITE
    ensures |Encode(image)| == HEADER_LEN + 3 * PIXELS
    ensures forall k :: 0 <= k < PIXELS ==>
              IsGrey(Record(Encode(image), k))
              && (Record(Encode(image), k)[0] == BLACK || Record(Encode(image), k)[0] == WHITE)
  {
    EncodeLayout(image, 0, 0);
    forall k | 0 <= k < PIXELS
      ensures IsGrey(Record(Encode(image), k))
      ensures Record(Encode(image), k)[0] == BLACK || Record(Encode(image), k)[0] == WHITE
    {
      EncodeLayout(image, k, 0);
      EncodeLayout(image, k, 1);
      EncodeLayout(image, k, 2);
    }
  }

  /** Byte `j` of pixel `(x, y)`'s record in the file is the pixel's grey level. */
  lemma PixelBytes(image: seq<byte>, x: int, y: int, j: int)
    requires |image| == PIXELS
    requires 0 <= x < WIDTH && 0 <= y < HEIGHT && 0 <= j < 3
    ensures 0 <= FileOffset(x, y, j) < |Encode(image)|
    ensures Encode(image)[FileOffset(x, y, j)] == image[Index(x, y)]
  {
    IndexInRange(x, y);
    EncodeLayout(image, Index(x, y), j);
  }

  /** In the written file, the records of pixels `(x, y)` and `(x, 800 − y)` are equal. */
  lemma FileSymmetry(x: int, y: int, j: int)
    requires 0 <= x < WIDTH && 0 < y < HEIGHT && 0 <= j < 3
    ensures 0 <= FileOffset(x, y, j) < |Encode(Image(MAX_ITER))|
    ensures 0 <= FileOffset(x, HEIGHT - y, j) < |Encode(Image(MAX_ITER))|
    ensures Encode(Image(MAX_ITER))[FileOffset(x, y, j)] == Encode(Image(MAX_ITER))[FileOffset(x, HEIGHT - y, j)]
  {
    var image := Image(MAX_ITER);
    ImageSymmetry(MAX_ITER, x, y);
    PixelBytes(image, x, y, j);
    PixelBytes(image, x, HEIGHT - y, j);
  }
}
