/** The synthetic pixel buffer the benchmark classifies (src/bitmap.h, src/bitmap.cxx). */
module Bitmaps {

  /** One 8-bit colour channel. */
  newtype byte = x: int | 0 <= x < 256

  /** One element of the buffer: three 8-bit channels. */
  datatype Pixel = Pixel(red: byte, green: byte, blue: byte)

  /** A fixed-size buffer of pixels that is filled once, when it is built. */
  class Bitmap {
    const size: nat
    const pixels: array<Pixel>

    /** The buffer holds exactly `size` pixels. */
    predicate Valid()
    {
      pixels.Length == size
    }

    /** Allocates `size` pixels and gives pixel i the grey level i % 255 on every channel. */
    constructor (size: nat)
      ensures this.size == size && Valid() && fresh(pixels)
      ensures forall i :: 0 <= i < size ==>
        pixels[i].red as int == i % 255 && pixels[i].green == pixels[i].red && pixels[i].blue == pixels[i].red
      ensures forall i :: 0 <= i < size ==> pixels[i].red <= 254
    {
      this.size := size;
      var a := new Pixel[size];
      for i := 0 to size
        invariant forall j :: 0 <= j < i ==> a[j] == Pixel((j % 255) as byte, (j % 255) as byte, (j % 255) as byte)
      {
        var v := (i % 255) as byte;
        a[i] := Pixel(v, v, v);
      }
      pixels := a;
    }

    /** The number of pixels the buffer was built with. */
    method Size() returns (n: nat)
      ensures n == size
    {
      n := size;
    }

    /** The buffer itself, not a copy. */
    method Pixels() returns (p: array<Pixel>)
      ensures p == pixels
    {
      p := pixels;
    }
  }
}
