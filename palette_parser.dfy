/** Reading a RIFF palette file: after a 0x18-byte header, four-byte entries of red,
    green, blue and a flags byte; fifteen palettes of sixteen colours, 0x40 bytes apart. */
module PaletteParser {
  import opened Common

  datatype RGB = RGB(r: u8, g: u8, b: u8)

  datatype Palette = Palette(palettes: seq<seq<RGB>>)

  const PaletteCount: nat := 0xF
  const ColorCount: nat := 0x10

  /** Where the entry for colour `i` of palette `pal` starts. */
  function EntryOffset(pal: nat, i: nat): nat
  {
    0x18 + i * 4 + pal * 0x40
  }

  /** The smallest file every read of `from_pal` stays inside. */
  const MinimumLength: nat := 983

  /** The last byte read is the blue of colour 15 of palette 14, at 982: a file of 983
      bytes is exactly long enough. */
  lemma LastByteRead()
    ensures EntryOffset(PaletteCount - 1, ColorCount - 1) + 2 == MinimumLength - 1
  {
  }

  /** Every byte `from_pal` reads lies in the file of the minimum length. */
  lemma {:induction false} EntryInFile(pal: nat, i: nat)
    requires pal < PaletteCount && i < ColorCount
    ensures EntryOffset(pal, i) + 2 < MinimumLength
  {
    assert i * 4 <= 60 && pal * 0x40 <= 14 * 0x40;
  }

  /** Colour `i` of palette `pal`: the first three bytes of its entry. */
  function ColorAt(bytes: seq<u8>, pal: nat, i: nat): RGB
    requires pal < PaletteCount && i < ColorCount && |bytes| >= MinimumLength
  {
    EntryInFile(pal, i);
    var at := EntryOffset(pal, i);
    RGB(bytes[at], bytes[at + 1], bytes[at + 2])
  }

  /** The colours of palette `pal`. */
  function ColorsOf(bytes: seq<u8>, pal: nat, n: nat): (colors: seq<RGB>)
    requires pal < PaletteCount && n <= ColorCount && |bytes| >= MinimumLength
    ensures |colors| == n
  {
    if n == 0 then [] else ColorsOf(bytes, pal, n - 1) + [ColorAt(bytes, pal, n - 1)]
  }

  /** The first `n` palettes. */
  function PalettesOf(bytes: seq<u8>, n: nat): (palettes: seq<seq<RGB>>)
    requires n <= PaletteCount && |bytes| >= MinimumLength
    ensures |palettes| == n
  {
    if n == 0 then [] else PalettesOf(bytes, n - 1) + [ColorsOf(bytes, n - 1, ColorCount)]
  }

  /** Fifteen palettes of sixteen colours, colour `i` of palette `p` from the entry at
      `0x18 + 4i + 0x40p`. */
  lemma {:induction false} PalettesLayout(bytes: seq<u8>, n: nat)
    requires n <= PaletteCount && |bytes| >= MinimumLength
    ensures forall p :: 0 <= p < n ==> |PalettesOf(bytes, n)[p]| == ColorCount
    ensures forall p, i :: 0 <= p < n && 0 <= i < ColorCount ==>
              PalettesOf(bytes, n)[p][i] == ColorAt(bytes, p, i)
  {
    if n > 0 {
      PalettesLayout(bytes, n - 1);
      ColorsLayout(bytes, n - 1, ColorCount);
    }
  }

  lemma {:induction false} ColorsLayout(bytes: seq<u8>, pal: nat, n: nat)
    requires pal < PaletteCount && n <= ColorCount && |bytes| >= MinimumLength
    ensures forall i :: 0 <= i < n ==> ColorsOf(bytes, pal, n)[i] == ColorAt(bytes, pal, i)
  {
    if n > 0 {
      ColorsLayout(bytes, pal, n - 1);
    }
  }

  /** The entry byte offsets of the palettes: `at` is byte `c` of colour `i` of palette
      `pal`, one of the three colour bytes. */
  predicate ReadAt(at: nat, pal: nat, i: nat, c: nat)
  {
    pal < PaletteCount && i < ColorCount && c < 3 && at == EntryOffset(pal, i) + c
  }

  /** Palette `pal` reads only inside its own 0x40 bytes, and never the flags byte of an
      entry: the palettes do not overlap. */
  lemma ReadAtBounds(at: nat, pal: nat, i: nat, c: nat)
    requires ReadAt(at, pal, i, c)
    ensures 0x18 + 0x40 * pal <= at < 0x18 + 0x40 * (pal + 1)
    ensures (at - 0x18) % 4 != 3
  {
    assert at - 0x18 == 4 * (i + 0x10 * pal) + c;
  }

  /** No byte is read twice: each offset names one palette, colour and channel. */
  lemma ReadAtUnique(at: nat, pal: nat, i: nat, c: nat, pal': nat, i': nat, c': nat)
    requires ReadAt(at, pal, i, c) && ReadAt(at, pal', i', c')
    ensures pal == pal' && i == i' && c == c'
  {
    assert at - 0x18 == 4 * (i + 0x10 * pal) + c;
    assert at - 0x18 == 4 * (i' + 0x10 * pal') + c';
    assert (at - 0x18) / 4 == i + 0x10 * pal == i' + 0x10 * pal';
  }

  /** Two files that agree on the colour bytes yield the same palettes: the header, the
      flags bytes and anything past 982 are never looked at. */
  lemma PalettesOnlyReadColors(a: seq<u8>, b: seq<u8>)
    requires |a| >= MinimumLength && |b| >= MinimumLength
    requires forall at: nat, pal: nat, i: nat, c: nat :: ReadAt(at, pal, i, c) && at < MinimumLength ==> a[at] == b[at]
    ensures PalettesOf(a, PaletteCount) == PalettesOf(b, PaletteCount)
  {
    PalettesLayout(a, PaletteCount);
    PalettesLayout(b, PaletteCount);
    forall p, i | 0 <= p < PaletteCount && 0 <= i < ColorCount
      ensures ColorAt(a, p, i) == ColorAt(b, p, i)
    {
      var at := EntryOffset(p, i);
      EntryInFile(p, i);
      assert ReadAt(at, p, i, 0) && ReadAt(at + 1, p, i, 1) && ReadAt(at + 2, p, i, 2);
    }
    var pa, pb := PalettesOf(a, PaletteCount), PalettesOf(b, PaletteCount);
    forall p | 0 <= p < PaletteCount
      ensures pa[p] == pb[p]
    {
      assert forall i :: 0 <= i < ColorCount ==> pa[p][i] == pb[p][i];
    }
  }

  /** `Palette::from_pal`, without reading the file. */
  method FromPal(bytes: seq<u8>) returns (palette: Palette)
    requires |bytes| >= MinimumLength
    ensures palette.palettes == PalettesOf(bytes, PaletteCount)
    ensures |palette.palettes| == PaletteCount
    ensures forall p :: 0 <= p < PaletteCount ==> |palette.palettes[p]| == ColorCount
    ensures forall p, i :: 0 <= p < PaletteCount && 0 <= i < ColorCount ==>
              palette.palettes[p][i] == ColorAt(bytes, p, i)
  {
    var palettes: seq<seq<RGB>> := [];
    for pal := 0x0 to 0xF
      invariant palettes == PalettesOf(bytes, pal)
    {
      var colors: seq<RGB> := [];
      for i := 0x0 to 0x10
        invariant colors == ColorsOf(bytes, pal, i)
      {
        EntryInFile(pal, i);
        var r := bytes[0x18 + i * 4 + pal * 0x40];
        var g := bytes[0x19 + i * 4 + pal * 0x40];
        var b := bytes[0x1a + i * 4 + pal * 0x40];
        colors := colors + [RGB(r, g, b)];
      }
      palettes := palettes + [colors];
    }
    palette := Palette(palettes);
    PalettesLayout(bytes, PaletteCount);
  }
}
