/**
 * MainWindow::SetImage (mainwindow.cpp): a decoded texture, four bytes per
 * pixel row by row, is copied into a new 32-bit image. The image starts filled
 * with magenta; every pixel is then overwritten, with the alpha byte kept only
 * for an image that has alpha. Both buffers are modelled as bytes in memory
 * order, four per pixel.
 */
module Image {
  import opened CTypes

  /** QColor(255, 0, 255) as the bytes of one 32-bit pixel in memory. */
  const Magenta: seq<byte> := [0xFF, 0x00, 0xFF, 0xFF]

  /** The byte at offset i of the image made from `raw`. */
  function ConvertedByte(raw: seq<byte>, alpha: bool, i: nat): byte
    requires i < |raw|
  {
    if i % 4 == 3 && !alpha then 0xFF else raw[i]
  }

  /** The whole image made from `raw`. */
  function Converted(raw: seq<byte>, alpha: bool): (image: seq<byte>)
    ensures |image| == |raw|
  {
    seq(|raw|, i requires 0 <= i < |raw| => ConvertedByte(raw, alpha, i))
  }

  /** The four bytes of pixel p sit at offsets 0 to 3 of their group of four. */
  lemma Lanes(p: nat)
    ensures (4 * p) % 4 == 0 && (4 * p + 1) % 4 == 1 && (4 * p + 2) % 4 == 2 && (4 * p + 3) % 4 == 3
  {
  }

  /** The bytes of `rows` scan lines of `width` pixels, counted row by row. */
  function RowBytes(width: nat, rows: nat): (n: nat)
  {
    if rows == 0 then 0 else 4 * width + RowBytes(width, rows - 1)
  }

  lemma {:induction false} RowBytesIsProduct(width: nat, rows: nat)
    ensures RowBytes(width, rows) == 4 * width * rows
  {
    if rows > 0 {
      RowBytesIsProduct(width, rows - 1);
      assert 4 * width * rows == 4 * width + 4 * width * (rows - 1);
    }
  }

  /**
   * One scan line: the `width` pixels from pixel `first` on are converted,
   * nothing else changes. lineIn and lineOut both start at that pixel.
   */
  method CopyRow(raw: array<byte>, image: array<byte>, first: nat, width: nat, alpha: bool)
    requires image != raw && image.Length == raw.Length
    requires 4 * (first + width) <= raw.Length
    modifies image
    ensures forall i | 4 * first <= i < 4 * (first + width) :: image[i] == ConvertedByte(raw[..], alpha, i)
    ensures forall i | 0 <= i < image.Length && !(4 * first <= i < 4 * (first + width)) :: image[i] == old(image[i])
  {
    for x := 0 to width
      invariant forall i | 4 * first <= i < 4 * (first + x) :: image[i] == ConvertedByte(raw[..], alpha, i)
      invariant forall i | 0 <= i < image.Length && !(4 * first <= i < 4 * (first + x)) :: image[i] == old(image[i])
    {
      var o := 4 * (first + x);
      Lanes(first + x);
      image[o] := raw[o];
      image[o + 1] := raw[o + 1];
      image[o + 2] := raw[o + 2];
      if alpha {
        image[o + 3] := raw[o + 3];
      } else {
        image[o + 3] := 0xFF;
      }
    }
  }

  /** QImage::fill with one colour: every one of the `pixels` pixels holds its four bytes. */
  method Fill(image: array<byte>, colour: seq<byte>, pixels: nat)
    requires |colour| == 4 && image.Length == 4 * pixels
    modifies image
    ensures forall i | 0 <= i < image.Length :: image[i] == colour[i % 4]
  {
    for p := 0 to pixels
      invariant forall i | 0 <= i < 4 * p :: image[i] == colour[i % 4]
    {
      Lanes(p);
      image[4 * p] := colour[0];
      image[4 * p + 1] := colour[1];
      image[4 * p + 2] := colour[2];
      image[4 * p + 3] := colour[3];
    }
  }

  method SetImage(raw: array<byte>, width: nat, height: nat, alpha: bool) returns (image: array<byte>)
    requires raw.Length == 4 * width * height
    ensures fresh(image)
    ensures image[..] == Converted(raw[..], alpha)
  {
    image := new byte[raw.Length];
    RowBytesIsProduct(width, height);
    Fill(image, Magenta, width * height);
    var first: nat := 0;
    for y := 0 to height
      invariant 4 * first + RowBytes(width, height - y) == raw.Length
      invariant forall i | 0 <= i < 4 * first :: image[i] == ConvertedByte(raw[..], alpha, i)
    {
      // raw + y*width: the row's first pixel.
      CopyRow(raw, image, first, width, alpha);
      first := first + width;
    }
    assert forall i | 0 <= i < raw.Length :: image[..][i] == Converted(raw[..], alpha)[i];
  }

  /** Every pixel keeps its three colour bytes; the fourth is its alpha, or opaque for an image without alpha. */
  lemma PixelCopied(raw: seq<byte>, alpha: bool, p: nat)
    requires 4 * p + 4 <= |raw|
    ensures Converted(raw, alpha)[4 * p] == raw[4 * p]
    ensures Converted(raw, alpha)[4 * p + 1] == raw[4 * p + 1]
    ensures Converted(raw, alpha)[4 * p + 2] == raw[4 * p + 2]
    ensures Converted(raw, alpha)[4 * p + 3] == if alpha then raw[4 * p + 3] else 0xFF
  {
    Lanes(p);
  }

  /** With alpha, the image is the texture byte for byte. */
  lemma AlphaKept(raw: seq<byte>)
    ensures Converted(raw, true) == raw
  {
  }

  /** Without alpha, no pixel of the image is transparent, and converting again changes nothing. */
  lemma OpaqueWithoutAlpha(raw: seq<byte>, p: nat)
    requires 4 * p + 4 <= |raw|
    ensures Converted(raw, false)[4 * p + 3] == 0xFF
    ensures Converted(Converted(raw, false), false) == Converted(raw, false)
  {
    PixelCopied(raw, false, p);
  }

  /** No pixel keeps the magenta fill unless the texture itself holds magenta there. */
  lemma FillNeverSurvives(raw: seq<byte>, alpha: bool, p: nat)
    requires 4 * p + 4 <= |raw|
    requires raw[4 * p..4 * p + 3] != Magenta[..3]
    ensures Converted(raw, alpha)[4 * p..4 * p + 4] != Magenta
  {
    PixelCopied(raw, alpha, p);
    var image := Converted(raw, alpha);
    assert image[4 * p..4 * p + 3] == raw[4 * p..4 * p + 3];
    assert image[4 * p..4 * p + 4][..3] == image[4 * p..4 * p + 3];
  }
}
