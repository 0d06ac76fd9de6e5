/** One hardware sprite placement (an OAM entry): its two decoders and the grid of tile
    indices it covers on a 32-tile-wide sheet. */
module Oam {
  import opened Common

  datatype Shape = Square | Horizontal | Vertical
  datatype Size = Size0 | Size1 | Size2 | Size3
  datatype Flip = None | Horizontal | Vertical | Both

  /** `selected` is a transient editor flag; it is never persisted. */
  datatype OAM = OAM(shape: Shape, size: Size, flip: Flip, x: i8, y: i8,
                     palette: nat, tile: nat, selected: bool)

  /** Declaration order of the enums, which `as u8` writes. */
  function ShapeOrdinal(s: Shape): u8
  {
    match s
    case Square => 0
    case Horizontal => 1
    case Vertical => 2
  }

  function SizeOrdinal(s: Size): u8
  {
    match s
    case Size0 => 0
    case Size1 => 1
    case Size2 => 2
    case Size3 => 3
  }

  function FlipOrdinal(f: Flip): u8
  {
    match f
    case None => 0
    case Horizontal => 1
    case Vertical => 2
    case Both => 3
  }

  /** The shape nibble of the first packed word: 0x0, 0x4 or 0x8. */
  function ShapeNibble(s: Shape): u8
  {
    match s
    case Square => 0x0
    case Horizontal => 0x4
    case Vertical => 0x8
  }

  /** `((hi as u16) << 8) | (lo as u16)`. */
  function Word(hi: u8, lo: u8): nat
  {
    hi as int * 256 + lo
  }

  /** Splitting a big-endian word `hi:lo` at its top nibble. */
  lemma WordFields(hi: u8, lo: u8)
    ensures Word(hi, lo) / 0x1000 == hi / 16
    ensures Word(hi, lo) % 0x1000 == (hi % 16) * 256 + lo
  {
    var w := Word(hi, lo);
    assert hi == 16 * (hi / 16) + hi % 16;
    assert w == 0x1000 * (hi / 16) + ((hi % 16) * 256 + lo);
  }

  /** The shape arm of `OAM::new`, on the top nibble of word 1. */
  function ShapeOfNibble(n: nat): (s: Shape)
    ensures s == Shape.Horizontal <==> n == 0x4
    ensures s == Shape.Vertical <==> n == 0x8
  {
    match n
    case 0x0 => Shape.Square
    case 0x4 => Shape.Horizontal
    case 0x8 => Shape.Vertical
    case _ => Shape.Square
  }

  /** The size arm, on `flip_size_nibble & !0x3`. */
  function SizeOfBits(b: nat): Size
  {
    match b
    case 0x0 => Size.Size0
    case 0x4 => Size.Size1
    case 0x8 => Size.Size2
    case 0xc => Size.Size3
    case _ => Size.Size0
  }

  /** The flip arm, on the two low bits of the nibble. */
  function FlipOfBits(b: nat): Flip
  {
    match b
    case 0x0 => Flip.None
    case 0x1 => Flip.Horizontal
    case 0x2 => Flip.Vertical
    case 0x3 => Flip.Both
    case _ => Flip.None
  }

  /** The flip/size nibble of word 2: the size arm sees the top two bits of byte 2 and the
      flip arm the next two, so neither fallback arm is reached. */
  lemma NibbleFields(b: u8)
    ensures SizeOrdinal(SizeOfBits(((b / 16) / 4) * 4)) == b / 64
    ensures FlipOrdinal(FlipOfBits(b / 16 - ((b / 16) / 4) * 4)) == (b / 16) % 4
  {
    var n := b / 16;
    assert n / 4 == b / 64;
    assert n - (n / 4) * 4 == n % 4;
  }

  /** `(word & 0x0FFF) as i16`, less `bias` when it is at least 0x80. */
  function Signed12(word: nat, bias: int): int
  {
    var v := word % 0x1000;
    if v >= 0x80 then v - bias else v
  }

  /** Subtracting 0x100 or 0x200 before the `as i8` cast changes nothing: the cast keeps
      the low byte of the word. */
  lemma Signed12LowByte(hi: u8, lo: u8, bias: int)
    requires bias == 0x100 || bias == 0x200
    ensures WrapI8(Signed12(Word(hi, lo), bias)) == AsI8(lo)
  {
    WordFields(hi, lo);
    var v := Signed12(Word(hi, lo), bias);
    var k := if Word(hi, lo) % 0x1000 >= 0x80 then hi as int % 16 - bias / 256 else hi as int % 16;
    assert v == k * 256 + lo;
    assert v % 256 == lo;
  }

  /** `OAM::new`: decodes three big-endian words `0xSYYY, 0xFXXX, 0xPTTT`. The masks are
      those of the code: the shape is the top nibble of word 1, the size the top two bits
      of word 2 and the flip the next two, the palette the top nibble of word 3 and the
      tile its low twelve bits. */
  function New(bytes: seq<u8>): (o: OAM)
    requires |bytes| >= 6
    ensures o.shape == Shape.Horizontal <==> bytes[0] / 16 == 0x4
    ensures o.shape == Shape.Vertical <==> bytes[0] / 16 == 0x8
    ensures o.shape == Shape.Square <==> bytes[0] / 16 != 0x4 && bytes[0] / 16 != 0x8
    ensures SizeOrdinal(o.size) == bytes[2] / 64
    ensures FlipOrdinal(o.flip) == (bytes[2] / 16) % 4
    ensures o.x == AsI8(bytes[3]) && o.y == AsI8(bytes[1])
    ensures o.palette == bytes[4] / 16 && o.palette < 16
    ensures o.tile == (bytes[4] as int % 16) * 256 + bytes[5] && o.tile < 4096
    ensures !o.selected
  {
    var word1 := Word(bytes[0], bytes[1]);
    var word2 := Word(bytes[2], bytes[3]);
    var word3 := Word(bytes[4], bytes[5]);
    WordFields(bytes[0], bytes[1]);
    WordFields(bytes[2], bytes[3]);
    WordFields(bytes[4], bytes[5]);
    NibbleFields(bytes[2]);
    Signed12LowByte(bytes[2], bytes[3], 0x200);
    Signed12LowByte(bytes[0], bytes[1], 0x100);
    var flipSizeNibble := word2 / 0x1000;
    // `flip_size_nibble & !0x3` on a nibble clears its two low bits
    var sizeBits := (flipSizeNibble / 4) * 4;
    OAM(ShapeOfNibble(word1 / 0x1000), SizeOfBits(sizeBits), FlipOfBits(flipSizeNibble - sizeBits),
        WrapI8(Signed12(word2, 0x200)), WrapI8(Signed12(word1, 0x100)),
        word3 / 0x1000, word3 % 0x1000, false)
  }

  /** The six bytes of the packed words that hold an OAM's fields. */
  function Packed(o: OAM): (bytes: seq<u8>)
    requires o.palette < 16 && o.tile < 4096
    ensures |bytes| == 6
  {
    [ShapeNibble(o.shape) * 16, WrapU8(o.y),
     SizeOrdinal(o.size) * 64 + FlipOrdinal(o.flip) * 16, WrapU8(o.x),
     o.palette * 16 + o.tile / 256, o.tile % 256]
  }

  /** Decoding the packed words gives back every persisted field. */
  lemma NewOfPacked(o: OAM)
    requires o.palette < 16 && o.tile < 4096
    ensures New(Packed(o)) == o.(selected := false)
  {
    var b := Packed(o);
    SizeFlipByte(SizeOrdinal(o.size), FlipOrdinal(o.flip));
    PaletteTileBytes(o.palette, o.tile);
    AsI8OfWrap(o.x);
    AsI8OfWrap(o.y);
    assert b[0] / 16 == ShapeNibble(o.shape);
    NewOfFields(b, o);
  }

  /** `OAM::new` on bytes whose fields are those of `o` gives `o`, unselected. */
  lemma NewOfFields(b: seq<u8>, o: OAM)
    requires |b| >= 6 && b[0] / 16 == ShapeNibble(o.shape)
    requires b[2] / 64 == SizeOrdinal(o.size) && (b[2] / 16) % 4 == FlipOrdinal(o.flip)
    requires AsI8(b[3]) == o.x && AsI8(b[1]) == o.y
    requires b[4] / 16 == o.palette && (b[4] as int % 16) * 256 + b[5] == o.tile
    ensures New(b) == o.(selected := false)
  {
    var r := New(b);
    assert r.shape == o.shape;
    SizeOrdinalInjective(r.size, o.size);
    FlipOrdinalInjective(r.flip, o.flip);
  }

  lemma SizeOrdinalInjective(a: Size, b: Size)
    requires SizeOrdinal(a) == SizeOrdinal(b)
    ensures a == b
  {
  }

  lemma FlipOrdinalInjective(a: Flip, b: Flip)
    requires FlipOrdinal(a) == FlipOrdinal(b)
    ensures a == b
  {
  }

  lemma SizeFlipByte(size: nat, flip: nat)
    requires size < 4 && flip < 4
    ensures (size * 64 + flip * 16) / 64 == size
    ensures ((size * 64 + flip * 16) / 16) % 4 == flip
  {
    assert (size * 64 + flip * 16) / 16 == size * 4 + flip;
  }

  lemma PaletteTileBytes(palette: nat, tile: nat)
    requires palette < 16 && tile < 4096
    ensures (palette * 16 + tile / 256) / 16 == palette
    ensures ((palette * 16 + tile / 256) % 16) * 256 + tile % 256 == tile
  {
    assert tile / 256 < 16;
  }

  /** A signed byte survives the cast to `u8` and back. */
  lemma AsI8OfWrap(v: i8)
    ensures AsI8(WrapU8(v)) == v
  {
  }

  function ShapeFromOrdinal(b: u8): Shape
  {
    match b
    case 0 => Shape.Square
    case 1 => Shape.Horizontal
    case 2 => Shape.Vertical
    case _ => Shape.Square
  }

  function SizeFromOrdinal(b: u8): Size
  {
    match b
    case 0 => Size.Size0
    case 1 => Size.Size1
    case 2 => Size.Size2
    case 3 => Size.Size3
    case _ => Size.Size0
  }

  function FlipFromOrdinal(b: u8): Flip
  {
    match b
    case 0 => Flip.None
    case 1 => Flip.Horizontal
    case 2 => Flip.Vertical
    case 3 => Flip.Both
    case _ => Flip.None
  }

  /** `OAM::from_bin`: the flat eight-byte record shape, size, flip, x, y, palette and a
      big-endian tile. An ordinal out of range falls back to the first variant. */
  function FromBin(bytes: seq<u8>): (o: OAM)
    requires |bytes| >= 8
    ensures bytes[0] <= 2 ==> ShapeOrdinal(o.shape) == bytes[0]
    ensures bytes[0] > 2 ==> o.shape == Shape.Square
    ensures bytes[1] <= 3 ==> SizeOrdinal(o.size) == bytes[1]
    ensures bytes[1] > 3 ==> o.size == Size.Size0
    ensures bytes[2] <= 3 ==> FlipOrdinal(o.flip) == bytes[2]
    ensures bytes[2] > 3 ==> o.flip == Flip.None
    ensures o.x == AsI8(bytes[3]) && o.y == AsI8(bytes[4])
    ensures o.palette == bytes[5] && o.tile == bytes[6] as int * 256 + bytes[7]
    ensures !o.selected
  {
    OAM(ShapeFromOrdinal(bytes[0]), SizeFromOrdinal(bytes[1]), FlipFromOrdinal(bytes[2]),
        AsI8(bytes[3]), AsI8(bytes[4]), bytes[5], bytes[6] as int * 256 + bytes[7], false)
  }

  /** Width and height in tiles for each shape and size. */
  function Dimensions(shape: Shape, size: Size): (wh: (nat, nat))
    ensures 1 <= wh.0 <= 8 && 1 <= wh.1 <= 8
  {
    match shape
    case Square => (match size case Size0 => (1, 1) case Size1 => (2, 2) case Size2 => (4, 4) case Size3 => (8, 8))
    case Horizontal => (match size case Size0 => (2, 1) case Size1 => (4, 1) case Size2 => (4, 2) case Size3 => (8, 4))
    case Vertical => (match size case Size0 => (1, 2) case Size1 => (1, 4) case Size2 => (2, 4) case Size3 => (4, 8))
  }

  predicate FlipsColumns(f: Flip)
  {
    f == Flip.Horizontal || f == Flip.Both
  }

  predicate FlipsRows(f: Flip)
  {
    f == Flip.Vertical || f == Flip.Both
  }

  /** The k-th element of `0..n`, or of its reversal. */
  function AxisAt(n: nat, reversed: bool, k: nat): nat
    requires k < n
  {
    if reversed then n - 1 - k else k
  }

  /** The tile-index grid an OAM covers: `h` rows of `w` entries, entry [r][c] being
      `tile + xs[c] + 32 * ys[r]` with `xs`, `ys` ascending or reversed by the flip. */
  function Grid(o: OAM): (g: seq<seq<nat>>)
  {
    var (w, h) := Dimensions(o.shape, o.size);
    seq(h, r requires 0 <= r < h =>
      seq(w, c requires 0 <= c < w =>
        o.tile + AxisAt(w, FlipsColumns(o.flip), c) + 32 * AxisAt(h, FlipsRows(o.flip), r)))
  }

  /** `(0..n).collect()`, or `(0..n).rev().collect()`. */
  function Range(n: nat, reversed: bool): (r: seq<nat>)
    ensures |r| == n
    ensures forall k :: 0 <= k < n ==> r[k] == AxisAt(n, reversed, k)
  {
    seq(n, k requires 0 <= k < n => AxisAt(n, reversed, k))
  }

  /** `OAM::get_sprite_indexes`. */
  method GetSpriteIndexes(o: OAM) returns (spriteIndexes: seq<seq<nat>>)
    ensures spriteIndexes == Grid(o)
    ensures |spriteIndexes| == Dimensions(o.shape, o.size).1
    ensures forall r :: 0 <= r < |spriteIndexes| ==> |spriteIndexes[r]| == Dimensions(o.shape, o.size).0
    ensures forall r, c :: 0 <= r < |spriteIndexes| && 0 <= c < |spriteIndexes[r]| ==>
              spriteIndexes[r][c] == o.tile + AxisAt(Dimensions(o.shape, o.size).0, FlipsColumns(o.flip), c) +
                                     32 * AxisAt(Dimensions(o.shape, o.size).1, FlipsRows(o.flip), r)
  {
    var (width, height) := Dimensions(o.shape, o.size);
    var yRange := Range(height, false);
    var xRange := Range(width, false);
    match o.flip {
      case Horizontal =>
        xRange := Range(width, true);
      case Vertical =>
        yRange := Range(height, true);
      case Both =>
        xRange := Range(width, true);
        yRange := Range(height, true);
      case None =>
    }
    assert xRange == Range(width, FlipsColumns(o.flip));
    assert yRange == Range(height, FlipsRows(o.flip));
    spriteIndexes := [];
    for r := 0 to |yRange|
      invariant |spriteIndexes| == r
      invariant forall i :: 0 <= i < r ==> spriteIndexes[i] == Grid(o)[i]
    {
      var y := yRange[r];
      var row: seq<nat> := [];
      for c := 0 to |xRange|
        invariant |row| == c
        invariant forall j :: 0 <= j < c ==> row[j] == o.tile + xRange[j] + y * 32
      {
        row := row + [o.tile + xRange[c] + y * 32];
      }
      spriteIndexes := spriteIndexes + [row];
    }
  }

  function Flatten(rows: seq<seq<nat>>): seq<nat>
  {
    if rows == [] then [] else rows[0] + Flatten(rows[1..])
  }

  lemma {:induction false} FlattenAppend(a: seq<seq<nat>>, b: seq<seq<nat>>)
    ensures Flatten(a + b) == Flatten(a) + Flatten(b)
  {
    if a == [] {
      assert a + b == b;
    } else {
      assert (a + b)[0] == a[0];
      assert (a + b)[1..] == a[1..] + b;
      FlattenAppend(a[1..], b);
    }
  }

  lemma {:induction false} FlattenLength(rows: seq<seq<nat>>, w: nat)
    requires forall r :: 0 <= r < |rows| ==> |rows[r]| == w
    ensures |Flatten(rows)| == |rows| * w
  {
    if rows != [] {
      FlattenLength(rows[1..], w);
    }
  }

  /** Flattening rows of width `w` puts entry [r][c] at `r * w + c`. */
  lemma {:induction false} FlattenAt(rows: seq<seq<nat>>, w: nat, r: nat, c: nat)
    requires forall i :: 0 <= i < |rows| ==> |rows[i]| == w
    requires r < |rows| && c < w
    ensures r * w + c < |Flatten(rows)| && Flatten(rows)[r * w + c] == rows[r][c]
  {
    FlattenLength(rows, w);
    if r > 0 {
      FlattenAt(rows[1..], w, r - 1, c);
      assert r * w + c == w + ((r - 1) * w + c);
    }
  }

  /** `OAM::get_sprite_indexes_one_dimensional`: the row-major flattening of the grid. */
  method GetSpriteIndexesOneDimensional(o: OAM) returns (indexes: seq<nat>)
    ensures indexes == Flatten(Grid(o))
    ensures |indexes| == Dimensions(o.shape, o.size).0 * Dimensions(o.shape, o.size).1
    ensures forall r, c :: 0 <= r < Dimensions(o.shape, o.size).1 && 0 <= c < Dimensions(o.shape, o.size).0 ==>
              indexes[r * Dimensions(o.shape, o.size).0 + c] == Grid(o)[r][c]
  {
    var twoDimensionalIndexes := GetSpriteIndexes(o);
    indexes := [];
    for r := 0 to |twoDimensionalIndexes|
      invariant indexes == Flatten(twoDimensionalIndexes[..r])
    {
      var row := twoDimensionalIndexes[r];
      ghost var before := indexes;
      for c := 0 to |row|
        invariant indexes == before + row[..c]
      {
        indexes := indexes + [row[c]];
      }
      FlattenSnoc(twoDimensionalIndexes, r);
    }
    assert twoDimensionalIndexes[..|twoDimensionalIndexes|] == twoDimensionalIndexes;
    FlattenGrid(o);
  }

  lemma FlattenSnoc(rows: seq<seq<nat>>, r: nat)
    requires r < |rows|
    ensures Flatten(rows[..r + 1]) == Flatten(rows[..r]) + rows[r]
  {
    assert rows[..r + 1] == rows[..r] + [rows[r]];
    FlattenAppend(rows[..r], [rows[r]]);
    assert Flatten([rows[r]]) == rows[r] + Flatten([]);
  }

  /** The flattened grid holds `w * h` indices, entry [r][c] at `r * w + c`. */
  lemma FlattenGrid(o: OAM)
    ensures |Flatten(Grid(o))| == Dimensions(o.shape, o.size).0 * Dimensions(o.shape, o.size).1
    ensures forall r, c :: 0 <= r < Dimensions(o.shape, o.size).1 && 0 <= c < Dimensions(o.shape, o.size).0 ==>
              Flatten(Grid(o))[r * Dimensions(o.shape, o.size).0 + c] == Grid(o)[r][c]
  {
    var (w, h) := Dimensions(o.shape, o.size);
    FlattenLength(Grid(o), w);
    forall r, c | 0 <= r < h && 0 <= c < w
      ensures Flatten(Grid(o))[r * w + c] == Grid(o)[r][c]
    {
      FlattenAt(Grid(o), w, r, c);
    }
  }

  function Reverse<T>(s: seq<T>): (r: seq<T>)
    ensures |r| == |s|
  {
    seq(|s|, k requires 0 <= k < |s| => s[|s| - 1 - k])
  }

  lemma {:induction false} ReversePermutes<T>(s: seq<T>)
    ensures multiset(Reverse(s)) == multiset(s)
  {
    if s != [] {
      var init := s[..|s| - 1];
      ReversePermutes(init);
      assert Reverse(s) == [s[|s| - 1]] + Reverse(init);
      assert s == init + [s[|s| - 1]];
    }
  }

  lemma {:induction false} FlattenReversedRows(rows: seq<seq<nat>>)
    ensures multiset(Flatten(Reverse(rows))) == multiset(Flatten(rows))
  {
    if rows != [] {
      var init := rows[..|rows| - 1];
      var last := rows[|rows| - 1];
      FlattenReversedRows(init);
      assert Reverse(rows) == [last] + Reverse(init);
      FlattenAppend([last], Reverse(init));
      assert Flatten([last]) == last + Flatten([]);
      assert rows == init + [last];
      FlattenAppend(init, [last]);
    }
  }

  lemma {:induction false} FlattenReversedColumns(rows: seq<seq<nat>>, rev: seq<seq<nat>>)
    requires |rev| == |rows|
    requires forall r :: 0 <= r < |rows| ==> rev[r] == Reverse(rows[r])
    ensures multiset(Flatten(rev)) == multiset(Flatten(rows))
  {
    if rows != [] {
      FlattenReversedColumns(rows[1..], rev[1..]);
      ReversePermutes(rows[0]);
    }
  }

  /** The grid of a `w` x `h` placement at `tile`, with either axis reversed. */
  function GridOf(tile: nat, w: nat, h: nat, fx: bool, fy: bool): seq<seq<nat>>
  {
    seq(h, r requires 0 <= r < h =>
      seq(w, c requires 0 <= c < w => tile + AxisAt(w, fx, c) + 32 * AxisAt(h, fy, r)))
  }

  lemma GridRowsReversed(tile: nat, w: nat, h: nat, fx: bool)
    ensures GridOf(tile, w, h, fx, true) == Reverse(GridOf(tile, w, h, fx, false))
  {
    var a, b := GridOf(tile, w, h, fx, true), GridOf(tile, w, h, fx, false);
    forall r | 0 <= r < h ensures a[r] == Reverse(b)[r] {
      assert Reverse(b)[r] == b[h - 1 - r];
      assert AxisAt(h, true, r) == AxisAt(h, false, h - 1 - r);
      SameElements(a[r], b[h - 1 - r]);
    }
    SameElements(a, Reverse(b));
  }

  lemma GridColumnsReversed(tile: nat, w: nat, h: nat)
    ensures forall r :: 0 <= r < h ==>
      GridOf(tile, w, h, true, false)[r] == Reverse(GridOf(tile, w, h, false, false)[r])
  {
    var a, b := GridOf(tile, w, h, true, false), GridOf(tile, w, h, false, false);
    forall r | 0 <= r < h ensures a[r] == Reverse(b[r]) {
      forall c | 0 <= c < w ensures a[r][c] == Reverse(b[r])[c] {
        assert |b[r]| == w;
        assert Reverse(b[r])[c] == b[r][w - 1 - c];
        assert AxisAt(w, true, c) == AxisAt(w, false, w - 1 - c);
      }
      SameElements(a[r], Reverse(b[r]));
    }
  }

  /** A flip changes the order in which the tiles are read, never which tiles are read. */
  lemma GridFlipPermutes(o: OAM)
    ensures multiset(Flatten(Grid(o))) == multiset(Flatten(Grid(o.(flip := Flip.None))))
  {
    var (w, h) := Dimensions(o.shape, o.size);
    var fx, fy := FlipsColumns(o.flip), FlipsRows(o.flip);
    var o0 := o.(flip := Flip.None);
    assert Grid(o) == GridOf(o.tile, w, h, fx, fy);
    assert Dimensions(o0.shape, o0.size) == (w, h);
    assert !FlipsColumns(o0.flip) && !FlipsRows(o0.flip);
    assert Grid(o0) == GridOf(o.tile, w, h, false, false);
    var g0 := GridOf(o.tile, w, h, false, false);
    var gc := GridOf(o.tile, w, h, fx, false);
    if fx {
      GridColumnsReversed(o.tile, w, h);
      FlattenReversedColumns(g0, gc);
    }
    if fy {
      GridRowsReversed(o.tile, w, h, fx);
      FlattenReversedRows(gc);
    }
  }

  /** 32 is the sheet's row stride, wider than any placement, so no tile is covered twice. */
  lemma GridDistinct(o: OAM, r1: nat, c1: nat, r2: nat, c2: nat)
    requires r1 < |Grid(o)| && c1 < |Grid(o)[r1]| && r2 < |Grid(o)| && c2 < |Grid(o)[r2]|
    requires r1 != r2 || c1 != c2
    ensures Grid(o)[r1][c1] != Grid(o)[r2][c2]
  {
    var (w, h) := Dimensions(o.shape, o.size);
    var xs, ys := FlipsColumns(o.flip), FlipsRows(o.flip);
    var x1, y1 := AxisAt(w, xs, c1), AxisAt(h, ys, r1);
    var x2, y2 := AxisAt(w, xs, c2), AxisAt(h, ys, r2);
    assert Grid(o)[r1][c1] - o.tile == x1 + 32 * y1;
    assert Grid(o)[r2][c2] - o.tile == x2 + 32 * y2;
    if y1 == y2 {
      assert x1 != x2;
    } else if y1 < y2 {
      assert x1 + 32 * y1 < 32 + 32 * y1 <= 32 * y2;
    } else {
      assert x2 + 32 * y2 < 32 + 32 * y2 <= 32 * y1;
    }
  }

  /** A 2x2 square at tile 0x10 covers 0x10, 0x11 and, one sheet row down, 0x30, 0x31. */
  lemma SquareSize1Example()
    ensures Flatten(Grid(OAM(Shape.Square, Size.Size1, Flip.None, 0, 0, 0, 0x10, false))) == [0x10, 0x11, 0x30, 0x31]
  {
    var g := Grid(OAM(Shape.Square, Size.Size1, Flip.None, 0, 0, 0, 0x10, false));
    assert |g| == 2 && |g[0]| == 2 && |g[1]| == 2;
    assert g[0][0] == 0x10 && g[0][1] == 0x11 && g[1][0] == 0x30 && g[1][1] == 0x31;
    assert g[0] == [0x10, 0x11] && g[1] == [0x30, 0x31];
    assert g == [[0x10, 0x11], [0x30, 0x31]];
    assert Flatten(g) == [0x10, 0x11] + Flatten([[0x30, 0x31]]);
    assert Flatten([[0x30, 0x31]]) == [0x30, 0x31] + Flatten([]);
  }
}
