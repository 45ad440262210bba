/** The pixel grid the encoder and the decoder work on: a `BufferedImage` as far as the codec sees
    it, width × height packed RGB ints read and written with `getRGB` and `setRGB`. The pixels
    are stored row after row, so pixel (x, y) sits at index y * width + x. */
module Raster {
  import opened Binary

  class Image {
    const width: nat
    const height: nat
    const pixels: array<bv32>

    ghost predicate Valid()
      reads this
    {
      pixels.Length == width * height
    }

    /** An image as `ImageIO.read` hands it over: its rows of packed pixels, top row first. */
    constructor (w: nat, h: nat, rows: seq<bv32>)
      requires |rows| == w * h
      ensures width == w && height == h
      ensures Valid() && fresh(pixels) && pixels[..] == rows
    {
      width, height := w, h;
      pixels := new bv32[|rows|](i requires 0 <= i < |rows| => rows[i]);
    }

    /** `getRGB(x, y)`. */
    function GetRGB(x: nat, y: nat): (rgb: bv32)
      requires Valid() && x < width && y < height
      reads this, pixels
    {
      pixels[Index(x, y, width, height)]
    }

    /** `setRGB(x, y, rgb)`: that one pixel changes and no other. */
    method SetRGB(x: nat, y: nat, rgb: bv32)
      requires Valid() && x < width && y < height
      modifies pixels
      ensures pixels[..] == old(pixels[..])[Index(x, y, width, height) := rgb]
    {
      pixels[Index(x, y, width, height)] := rgb;
    }
  }

  /** Where pixel (x, y) of a width × height grid sits in the row-major order: inside the grid. */
  function Index(x: nat, y: nat, width: nat, height: nat): (i: nat)
    requires x < width && y < height
    ensures i < width * height
  {
    IndexInGrid(x, y, width, height);
    y * width + x
  }

  lemma IndexInGrid(x: nat, y: nat, width: nat, height: nat)
    requires x < width && y < height
    ensures y * width + x < width * height
  {
    calc {
      y * width + x;
    <
      y * width + width;
    ==
      (y + 1) * width;
    <=  { assert y + 1 <= height; }
      height * width;
    }
  }

  /** The row-major position after a whole row y is the start of row y + 1. */
  lemma RowEnd(y: nat, width: nat)
    ensures y * width + width == (y + 1) * width
  {
  }

  /** After the last row, every pixel of the grid has been visited. */
  lemma GridEnd(y: nat, width: nat, height: nat)
    requires y == height
    ensures y * width == width * height
  {
  }

  /** The three 8-bit channels of a packed pixel, as `(rgb >> 16) & 0xFF`, `(rgb >> 8) & 0xFF`
      and `rgb & 0xFF` take them out. */
  function Red(rgb: bv32): bv32 { (rgb >> 16) & 0xFF }
  function Green(rgb: bv32): bv32 { (rgb >> 8) & 0xFF }
  function Blue(rgb: bv32): bv32 { rgb & 0xFF }

  /** `(r << 16) | (g << 8) | b`: the value `setRGB` receives; the top (alpha) byte is left 0. */
  function Pack(r: bv32, g: bv32, b: bv32): bv32 {
    (r << 16) | (g << 8) | b
  }

  /** The digit `c & 1` appends to a string of bits: '0' or '1'. */
  function LowBit(c: bv32): CodeUnit {
    if c & 1 == 0 then Bit0 else Bit1
  }

  /** Packing 8-bit channels and taking them apart again gives them back, with a zero top byte. */
  lemma PackChannels(r: bv32, g: bv32, b: bv32)
    requires r <= 0xFF && g <= 0xFF && b <= 0xFF
    ensures Red(Pack(r, g, b)) == r && Green(Pack(r, g, b)) == g && Blue(Pack(r, g, b)) == b
    ensures Pack(r, g, b) >> 24 == 0
  {
  }
}
