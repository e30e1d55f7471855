/**
  The binary pixel-map (P6) serialisation of the buffer: an ASCII header
  `P6\n<width> <height>\n<maxval>\n` followed by one red, green, blue triple
  per pixel in row-major order. A grey pixel repeats its byte three times.
 */
module Ppm {
  import opened Viewport
  import opened Raster

  datatype Option<T> = None | Some(value: T)

  /** ASCII codes of `s`, one byte per character. */
  function Ascii(s: string): seq<byte>
    requires forall i :: 0 <= i < |s| ==> s[i] as int < 256
  {
    seq(|s|, i requires 0 <= i < |s| => s[i] as int as byte)
  }

  /** The decimal digit character for `d`. */
  function Digit(d: int): char
    requires 0 <= d < 10
  {
    ('0' as int + d) as char
  }

  /** `s` is a non-empty run of decimal digits. */
  predicate IsDigits(s: string)
  {
    |s| > 0 && forall i :: 0 <= i < |s| ==> '0' <= s[i] <= '9'
  }

  /** The number that a run of decimal digits spells, most significant first. */
  function DigitsValue(s: string): int
  {
    if |s| == 0 then 0
    else DigitsValue(s[..|s| - 1]) * 10 + (s[|s| - 1] as int - '0' as int)
  }

  /** `n` printed in decimal without leading zeros, as the `%d` conversion prints it. */
  function Decimal(n: nat): (s: string)
    ensures IsDigits(s)
    ensures s[0] != '0' || n == 0
  {
    if n < 10 then [Digit(n)] else Decimal(n / 10) + [Digit(n % 10)]
  }

  /** Reading the printed digits back gives the number: `Decimal` is faithful. */
  lemma {:induction false} DecimalValue(n: nat)
    ensures DigitsValue(Decimal(n)) == n
  {
    if n >= 10 {
      DecimalValue(n / 10);
      var s := Decimal(n);
      assert s[..|s| - 1] == Decimal(n / 10);
    }
  }

  /** The header `P6\n<width> <height>\n<maxval>\n` in ASCII. */
  function Header(width: nat, height: nat, maxval: nat): seq<byte>
  {
    var text := "P6\n" + Decimal(width) + " " + Decimal(height) + "\n" + Decimal(maxval) + "\n";
    assert forall i :: 0 <= i < |text| ==> text[i] as int < 256;
    Ascii(text)
  }

  /** The header text the program writes. */
  const HEADER_TEXT: string := "P6\n800 800\n255\n"

  /** Length of the header in bytes. */
  const HEADER_LEN: int := |HEADER_TEXT|

  /** The program's header for an 800×800 image with maximum value 255 is the 15 bytes `P6\n800 800\n255\n`. */
  lemma HeaderBytes()
    ensures Header(WIDTH, HEIGHT, 255) == Ascii(HEADER_TEXT)
    ensures |Header(WIDTH, HEIGHT, 255)| == HEADER_LEN == 15
  {
    assert Decimal(8) == "8";
    assert Decimal(80) == "80";
    assert Decimal(800) == "800";
    assert Decimal(2) == "2";
    assert Decimal(25) == "25";
    assert Decimal(255) == "255";
    assert "P6\n" + "800" + " " + "800" + "\n" + "255" + "\n" == HEADER_TEXT;
  }

  /** Each byte of `image` written three times in turn, as grey (red, green, blue) triples. */
  function Triples(image: seq<byte>): (out: seq<byte>)
    ensures |out| == 3 * |image|
  {
    if |image| == 0 then []
    else
      var p := image[|image| - 1];
      Triples(image[..|image| - 1]) + [p, p, p]
  }

  /** Byte `j` of the `k`-th triple is pixel `k`. */
  lemma {:induction false} TriplesAt(image: seq<byte>, k: int, j: int)
    requires 0 <= k < |image| && 0 <= j < 3
    ensures 3 * k + j < |Triples(image)|
    ensures Triples(image)[3 * k + j] == image[k]
  {
    var n := |image| - 1;
    if k < n {
      TriplesAt(image[..n], k, j);
    }
  }

  /** The whole file: the header, then one triple per buffer cell. */
  function Encode(image: seq<byte>): seq<byte>
  {
    Header(WIDTH, HEIGHT, 255) + Triples(image)
  }

  /**
    The byte layout of the file: the 15-byte header, then `3·PIXELS` bytes in
    which the byte at `15 + 3k + j` (for `j < 3`) is buffer cell `k`.
   */
  lemma EncodeLayout(image: seq<byte>, k: int, j: int)
    requires |image| == PIXELS
    requires 0 <= k < PIXELS && 0 <= j < 3
    ensures |Encode(image)| == HEADER_LEN + 3 * PIXELS
    ensures Encode(image)[..HEADER_LEN] == Ascii(HEADER_TEXT)
    ensures Encode(image)[HEADER_LEN + 3 * k + j] == image[k]
  {
    HeaderBytes();
    TriplesAt(image, k, j);
  }

  /**
    Writes the header, then, row by row and column by column, each grey byte
    three times.
   */
  method WriteImage(image: seq<byte>) returns (out: seq<byte>)
    requires |image| == PIXELS
    ensures out == Encode(image)
  {
    out := Header(WIDTH, HEIGHT, 255);
    var y := 0;
    while y < HEIGHT
      invariant 0 <= y <= HEIGHT
      invariant out == Header(WIDTH, HEIGHT, 255) + Triples(image[..Index(0, y)])
    {
      var x := 0;
      while x < WIDTH
        invariant 0 <= x <= WIDTH
        invariant out == Header(WIDTH, HEIGHT, 255) + Triples(image[..Index(x, y)])
      {
        IndexInRange(x, y);
        var i := y * WIDTH + x;
        assert image[..i + 1][..i] == image[..i];
        out := out + [image[i]];
        out := out + [image[i]];
        out := out + [image[i]];
        x := x + 1;
      }
      y := y + 1;
    }
    assert image[..PIXELS] == image;
  }

  /** The `k`-th three-byte record after the header. */
  function Record(bytes: seq<byte>, k: int): seq<byte>
    requires 0 <= k && HEADER_LEN + 3 * k + 3 <= |bytes|
  {
    bytes[HEADER_LEN + 3 * k .. HEADER_LEN + 3 * k + 3]
  }

  /** A record whose three bytes agree: a grey pixel. */
  predicate IsGrey(record: seq<byte>)
  {
    |record| == 3 && record[0] == record[1] == record[2]
  }

  /**
    Reads a file back: it must be exactly the program's header followed by
    `PIXELS` grey records; the result is the buffer, one byte per record.
   */
  function Decode(bytes: seq<byte>): Option<seq<byte>>
  {
    if |bytes| != HEADER_LEN + 3 * PIXELS then None
    else if bytes[..HEADER_LEN] != Ascii(HEADER_TEXT) then None
    else if !(forall k :: 0 <= k < PIXELS ==> IsGrey(Record(bytes, k))) then None
    else Some(seq(PIXELS, k requires 0 <= k < PIXELS => bytes[HEADER_LEN + 3 * k]))
  }

  /** Reading back what was written gives the buffer back. */
  lemma DecodeEncode(image: seq<byte>)
    requires |image| == PIXELS
    ensures Decode(Encode(image)) == Some(image)
  {
    var bytes := Encode(image);
    forall k | 0 <= k < PIXELS
      ensures IsGrey(Record(bytes, k)) && bytes[HEADER_LEN + 3 * k] == image[k]
    {
      EncodeLayout(image, k, 0);
      EncodeLayout(image, k, 1);
      EncodeLayout(image, k, 2);
    }
    EncodeLayout(image, 0, 0);
    var decoded := seq(PIXELS, k requires 0 <= k < PIXELS => bytes[HEADER_LEN + 3 * k]);
    assert decoded == image;
  }

  /** Whatever decodes is exactly the encoding of what it decodes to. */
  lemma EncodeDecode(bytes: seq<byte>, image: seq<byte>)
    requires Decode(bytes) == Some(image)
    ensures |image| == PIXELS
    ensures Encode(image) == bytes
  {
    var out := Encode(image);
    HeaderBytes();
    EncodeLayout(image, 0, 0);
    forall i | 0 <= i < |bytes|
      ensures out[i] == bytes[i]
    {
      if i >= HEADER_LEN {
        var k, j := (i - HEADER_LEN) / 3, (i - HEADER_LEN) % 3;
        EncodeLayout(image, k, j);
        assert IsGrey(Record(bytes, k));
      }
    }
  }
}
