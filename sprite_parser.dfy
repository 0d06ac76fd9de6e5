/** Decoding 4bpp sprite sheets: each byte holds two pixels, the low nibble first, and
    every 0x20 bytes make one 8x8 sprite. */
module SpriteParser {
  import opened Common

  const LowerNibbleMask: bv8 := 0x0F
  const UpperNibbleMask: bv8 := 0xF0

  /** One sprite: 0x40 palette indices. */
  datatype Sprite = Sprite(pixels: seq<u8>)

  datatype Spritesheet = Spritesheet(sprites: seq<Sprite>)

  /** Masking a byte with the lower-nibble mask keeps its value modulo 16. */
  lemma LowerNibbleMaskIsModulo(b: bv8)
    ensures (b & LowerNibbleMask) as int == b as int % 16
  {
  }

  /** Masking a byte with the upper-nibble mask and shifting it down by 4 divides it by 16. */
  lemma UpperNibbleMaskIsQuotient(b: bv8)
    ensures ((b & UpperNibbleMask) >> 4) as int == b as int / 16
  {
  }

  /** The left pixel of a byte: its low nibble, as the two lemmas above justify. */
  function LeftPixel(b: u8): (p: u8)
    ensures p < 16
  {
    b % 16
  }

  /** The right pixel of a byte: its high nibble. */
  function RightPixel(b: u8): (p: u8)
    ensures p < 16
  {
    b / 16
  }

  /** The pixels of a run of bytes, two per byte in byte order: each a 4-bit palette index. */
  function PixelsOf(bytes: seq<u8>): (pixels: seq<u8>)
    ensures |pixels| == 2 * |bytes|
    ensures forall k :: 0 <= k < |pixels| ==> pixels[k] < 16
  {
    if bytes == [] then []
    else PixelsOf(bytes[..|bytes| - 1]) + [LeftPixel(bytes[|bytes| - 1]), RightPixel(bytes[|bytes| - 1])]
  }

  /** Byte `i` gives pixels `2i`, its low nibble, and `2i + 1`, its high nibble. */
  lemma {:induction false} PixelsOfLayout(bytes: seq<u8>)
    ensures |PixelsOf(bytes)| == 2 * |bytes|
    ensures forall i :: 0 <= i < |bytes| ==>
              PixelsOf(bytes)[2 * i] == bytes[i] % 16 && PixelsOf(bytes)[2 * i + 1] == bytes[i] / 16
  {
    if bytes != [] {
      var n := |bytes| - 1;
      PixelsOfLayout(bytes[..n]);
      assert forall i :: 0 <= i < n ==> bytes[..n][i] == bytes[i];
    }
  }

  /** Pixel pairs packed back into bytes, the left pixel in the low nibble. */
  function PackPixels(pixels: seq<u8>): (bytes: seq<u8>)
    requires |pixels| % 2 == 0 && forall k :: 0 <= k < |pixels| ==> pixels[k] < 16
    ensures |bytes| == |pixels| / 2
  {
    if pixels == [] then []
    else
      var n := |pixels| - 2;
      PackPixels(pixels[..n]) + [pixels[n] + 16 * pixels[n + 1]]
  }

  /** Each byte is recovered from its two pixels: the decoder loses nothing. */
  lemma {:induction false} PackPixelsOf(bytes: seq<u8>)
    ensures PackPixels(PixelsOf(bytes)) == bytes
  {
    if bytes != [] {
      var n := |bytes| - 1;
      PackPixelsOf(bytes[..n]);
      assert PixelsOf(bytes)[..2 * n] == PixelsOf(bytes[..n]);
      assert bytes[..n] + [bytes[n]] == bytes;
    }
  }

  /** A packed pair of pixels splits back into the two. */
  lemma PairPixels(lo: u8, hi: u8)
    requires lo < 16 && hi < 16
    ensures LeftPixel(lo + 16 * hi) == lo && RightPixel(lo + 16 * hi) == hi
  {
  }

  /** One more byte adds its two pixels at the end. */
  lemma PixelsOfSnoc(bytes: seq<u8>, b: u8)
    ensures PixelsOf(bytes + [b]) == PixelsOf(bytes) + [LeftPixel(b), RightPixel(b)]
  {
    assert (bytes + [b])[..|bytes|] == bytes;
  }

  /** A sequence is its prefix followed by its last two elements. */
  lemma LastTwo<T>(s: seq<T>)
    requires |s| >= 2
    ensures s == s[..|s| - 2] + [s[|s| - 2], s[|s| - 1]]
  {
  }

  /** Every sequence of 4-bit pixels of even length is what some bytes decode to. */
  lemma {:induction false} PixelsOfPack(pixels: seq<u8>)
    requires |pixels| % 2 == 0 && forall k :: 0 <= k < |pixels| ==> pixels[k] < 16
    ensures PixelsOf(PackPixels(pixels)) == pixels
  {
    if pixels != [] {
      var n := |pixels| - 2;
      PixelsOfPack(pixels[..n]);
      LastTwo(pixels);
      PixelsOfPackStep(pixels[..n], pixels[n], pixels[n + 1]);
    }
  }

  /** Two more 4-bit pixels keep a sequence of pixels even and 4-bit. */
  lemma NibblesSnoc(init: seq<u8>, lo: u8, hi: u8)
    requires |init| % 2 == 0 && forall k :: 0 <= k < |init| ==> init[k] < 16
    requires lo < 16 && hi < 16
    ensures |init + [lo, hi]| % 2 == 0
    ensures forall k :: 0 <= k < |init + [lo, hi]| ==> (init + [lo, hi])[k] < 16
  {
  }

  /** Two more pixels pack into one more byte at the end. */
  lemma PackSnoc(init: seq<u8>, lo: u8, hi: u8)
    requires |init| % 2 == 0 && forall k :: 0 <= k < |init| ==> init[k] < 16
    requires lo < 16 && hi < 16
    ensures |init + [lo, hi]| % 2 == 0 && forall k :: 0 <= k < |init + [lo, hi]| ==> (init + [lo, hi])[k] < 16
    ensures PackPixels(init + [lo, hi]) == PackPixels(init) + [lo + 16 * hi]
  {
    NibblesSnoc(init, lo, hi);
    assert (init + [lo, hi])[..|init|] == init;
  }

  /** Two more pixels pack into one more byte, which decodes back to them. */
  lemma PixelsOfPackStep(init: seq<u8>, lo: u8, hi: u8)
    requires |init| % 2 == 0 && forall k :: 0 <= k < |init| ==> init[k] < 16
    requires lo < 16 && hi < 16 && PixelsOf(PackPixels(init)) == init
    ensures |init + [lo, hi]| % 2 == 0 && forall k :: 0 <= k < |init + [lo, hi]| ==> (init + [lo, hi])[k] < 16
    ensures PixelsOf(PackPixels(init + [lo, hi])) == init + [lo, hi]
  {
    PackSnoc(init, lo, hi);
    PixelsOfSnoc(PackPixels(init), lo + 16 * hi);
    PairPixels(lo, hi);
  }

  /** `Sprite::from_4bpp`: the first 0x20 bytes as 0x40 pixels. */
  method SpriteFromFourBpp(bytes: seq<u8>) returns (sprite: Sprite)
    requires |bytes| >= 0x20
    ensures sprite.pixels == PixelsOf(bytes[..0x20])
    ensures |sprite.pixels| == 0x40
    ensures forall i :: 0 <= i < 0x20 ==>
              sprite.pixels[2 * i] == bytes[i] % 16 && sprite.pixels[2 * i + 1] == bytes[i] / 16
  {
    var pixels: seq<u8> := [];
    for i := 0 to 0x20
      invariant pixels == PixelsOf(bytes[..i])
    {
      var byte := bytes[i];
      var leftPixel: u8 := byte % 16;
      var rightPixel: u8 := byte / 16;
      assert bytes[..i + 1][..i] == bytes[..i];
      pixels := pixels + [leftPixel, rightPixel];
    }
    sprite := Sprite(pixels);
    PixelsOfLayout(bytes[..0x20]);
  }

  /** The first `n` sprites of a sheet, sprite `i` from bytes `0x20 i` to `0x20 i + 0x20`. */
  function SheetOf(bytes: seq<u8>, n: nat): seq<Sprite>
    requires 0x20 * n <= |bytes|
  {
    if n == 0 then [] else SheetOf(bytes, n - 1) + [Sprite(PixelsOf(bytes[0x20 * (n - 1)..0x20 * n]))]
  }

  /** Sprite `i` of the sheet decodes the `i`-th chunk of 0x20 bytes. */
  lemma {:induction false} SheetOfLayout(bytes: seq<u8>, n: nat)
    requires 0x20 * n <= |bytes|
    ensures |SheetOf(bytes, n)| == n
    ensures forall i :: 0 <= i < n ==> SheetOf(bytes, n)[i] == Sprite(PixelsOf(bytes[0x20 * i..0x20 * i + 0x20]))
  {
    if n > 0 {
      SheetOfLayout(bytes, n - 1);
    }
  }

  /** Bytes after the last whole chunk are ignored. */
  lemma SheetIgnoresTrailing(bytes: seq<u8>, extra: seq<u8>)
    requires |bytes| % 0x20 == 0 && |extra| < 0x20
    ensures SheetOf(bytes + extra, |bytes + extra| / 0x20) == SheetOf(bytes, |bytes| / 0x20)
  {
    var n := |bytes| / 0x20;
    assert |bytes + extra| / 0x20 == n;
    SheetOfLayout(bytes + extra, n);
    SheetOfLayout(bytes, n);
    forall i | 0 <= i < n
      ensures (bytes + extra)[0x20 * i..0x20 * i + 0x20] == bytes[0x20 * i..0x20 * i + 0x20]
    {
    }
  }

  /** `Spritesheet::from_4bpp`, without reading the file: one sprite per whole chunk of
      0x20 bytes. */
  method SpritesheetFromFourBpp(bytes: seq<u8>) returns (sheet: Spritesheet)
    ensures sheet.sprites == SheetOf(bytes, |bytes| / 0x20)
    ensures |sheet.sprites| == |bytes| / 0x20
    ensures forall i :: 0 <= i < |bytes| / 0x20 ==>
              sheet.sprites[i].pixels == PixelsOf(bytes[0x20 * i..0x20 * i + 0x20])
  {
    var sprites: seq<Sprite> := [];
    for i := 0 to |bytes| / 0x20
      invariant sprites == SheetOf(bytes, i)
    {
      var sprite := SpriteFromFourBpp(bytes[i * 0x20..i * 0x20 + 0x20]);
      assert bytes[i * 0x20..i * 0x20 + 0x20][..0x20] == bytes[i * 0x20..i * 0x20 + 0x20];
      sprites := sprites + [sprite];
    }
    sheet := Spritesheet(sprites);
    SheetOfLayout(bytes, |bytes| / 0x20);
  }
}
