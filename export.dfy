/** The `cells.bin` writer: every animation cel as its name, a 0x00 separator, a count
    byte and one eight-byte record per OAM, with no header. */
module Export {
  import opened Common
  import Oam
  import Cel

  /** The eight bytes one OAM contributes: the three enum ordinals, then x, y and palette
      cast to bytes, then the tile's high and low bytes. */
  function OamRecord(o: Oam.OAM): (r: seq<u8>)
    ensures |r| == 8
  {
    [Oam.ShapeOrdinal(o.shape), Oam.SizeOrdinal(o.size), Oam.FlipOrdinal(o.flip),
     WrapU8(o.x), WrapU8(o.y), WrapU8(o.palette), WrapU8(o.tile / 256), WrapU8(o.tile)]
  }

  /** The OAM records of a cel, in order. */
  function OamRecords(oams: seq<Oam.OAM>): seq<u8>
  {
    if oams == [] then [] else OamRecords(oams[..|oams| - 1]) + OamRecord(oams[|oams| - 1])
  }

  /** One cel's bytes. */
  function CellRecord(name: string, cel: Cel.AnimationCel): seq<u8>
    requires IsAscii(name)
  {
    StringToBytes(name) + [0x00, WrapU8(|cel.oams|)] + OamRecords(cel.oams)
  }

  /** Every cel of `cells` in the order `order` visits the keys. */
  function CellsBin(cells: map<string, Cel.AnimationCel>, order: seq<string>): seq<u8>
    requires forall k :: 0 <= k < |order| ==> order[k] in cells && IsAscii(order[k])
  {
    if order == [] then []
    else CellsBin(cells, order[..|order| - 1]) +
         CellRecord(order[|order| - 1], cells[order[|order| - 1]])
  }

  /** `create_cells_bin` without the file write: the bytes it would write, visiting the
      map in the iteration order `order`. */
  method CreateCellsBin(cells: map<string, Cel.AnimationCel>, order: seq<string>) returns (bytes: seq<u8>)
    requires forall name :: name in cells <==> name in order
    requires forall i, j :: 0 <= i < j < |order| ==> order[i] != order[j]
    requires forall k :: 0 <= k < |order| ==> IsAscii(order[k])
    ensures bytes == CellsBin(cells, order)
  {
    bytes := [];
    for k := 0 to |order|
      invariant bytes == CellsBin(cells, order[..k])
    {
      var name := order[k];
      var cell := cells[name];
      ghost var before := bytes + StringToBytes(name) + [0x00, WrapU8(|cell.oams|)];
      // name bytes, separator byte, cell length
      bytes := bytes + StringToBytes(name);
      bytes := bytes + [0x00];
      bytes := bytes + [WrapU8(|cell.oams|)];
      assert bytes == before;
      for j := 0 to |cell.oams|
        invariant bytes == before + OamRecords(cell.oams[..j])
      {
        var oam := cell.oams[j];
        ghost var start := bytes;
        bytes := bytes + [Oam.ShapeOrdinal(oam.shape)];
        bytes := bytes + [Oam.SizeOrdinal(oam.size)];
        bytes := bytes + [Oam.FlipOrdinal(oam.flip)];
        bytes := bytes + [WrapU8(oam.x)];
        bytes := bytes + [WrapU8(oam.y)];
        bytes := bytes + [WrapU8(oam.palette)];
        bytes := bytes + [WrapU8(oam.tile / 256)];
        bytes := bytes + [WrapU8(oam.tile)];
        PushedRecord(start, oam, bytes);
        OamRecordsSnoc(before, cell.oams, j);
      }
      CellsBinSnoc(cells, order, k, before + OamRecords(cell.oams[..|cell.oams|]));
    }
    assert order[..|order|] == order;
  }

  /** The eight pushes for one OAM append its record. */
  lemma PushedRecord(start: seq<u8>, o: Oam.OAM, bytes: seq<u8>)
    requires bytes == start + [Oam.ShapeOrdinal(o.shape)] + [Oam.SizeOrdinal(o.size)] + [Oam.FlipOrdinal(o.flip)] +
                      [WrapU8(o.x)] + [WrapU8(o.y)] + [WrapU8(o.palette)] + [WrapU8(o.tile / 256)] + [WrapU8(o.tile)]
    ensures bytes == start + OamRecord(o)
  {
    SameElements(bytes, start + OamRecord(o));
  }

  lemma OamRecordsSnoc(before: seq<u8>, oams: seq<Oam.OAM>, j: nat)
    requires j < |oams|
    ensures before + OamRecords(oams[..j]) + OamRecord(oams[j]) == before + OamRecords(oams[..j + 1])
  {
    assert oams[..j + 1][..j] == oams[..j];
  }

  lemma CellsBinSnoc(cells: map<string, Cel.AnimationCel>, order: seq<string>, k: nat, record: seq<u8>)
    requires k < |order| && order[k] in cells && IsAscii(order[k])
    requires forall q :: 0 <= q < |order| ==> order[q] in cells && IsAscii(order[q])
    requires record == CellsBin(cells, order[..k]) + StringToBytes(order[k]) + [0x00, WrapU8(|cells[order[k]].oams|)] +
                       OamRecords(cells[order[k]].oams[..|cells[order[k]].oams|])
    ensures record == CellsBin(cells, order[..k + 1])
  {
    assert order[..k + 1][..k] == order[..k];
    assert cells[order[k]].oams[..|cells[order[k]].oams|] == cells[order[k]].oams;
  }

  /** Eight bytes per OAM, and record `k` sits at offset `8 * k`. */
  lemma {:induction false} OamRecordsAt(oams: seq<Oam.OAM>)
    ensures |OamRecords(oams)| == 8 * |oams|
    ensures forall k :: 0 <= k < |oams| ==> OamRecords(oams)[8 * k..8 * k + 8] == OamRecord(oams[k])
  {
    if oams != [] {
      var init := oams[..|oams| - 1];
      OamRecordsAt(init);
      var r := OamRecords(oams);
      assert r == OamRecords(init) + OamRecord(oams[|oams| - 1]);
      forall k | 0 <= k < |oams|
        ensures r[8 * k..8 * k + 8] == OamRecord(oams[k])
      {
        if k < |oams| - 1 {
          assert r[8 * k..8 * k + 8] == OamRecords(init)[8 * k..8 * k + 8];
          assert oams[k] == init[k];
        } else {
          assert r[8 * k..8 * k + 8] == OamRecord(oams[|oams| - 1]);
        }
      }
    }
  }

  /** A cel record is `len(name) + 2 + 8n` bytes long, and its count byte is the number of
      OAMs truncated to eight bits. */
  lemma CellRecordLayout(name: string, cel: Cel.AnimationCel)
    requires IsAscii(name)
    ensures |CellRecord(name, cel)| == |name| + 2 + 8 * |cel.oams|
    ensures CellRecord(name, cel)[..|name|] == StringToBytes(name)
    ensures CellRecord(name, cel)[|name|] == 0x00
    ensures CellRecord(name, cel)[|name| + 1] == |cel.oams| % 256
  {
    OamRecordsAt(cel.oams);
    var r := CellRecord(name, cel);
    assert r[..|name|] == StringToBytes(name);
  }

  /** `OAM::from_bin` reads back what one OAM wrote, for a palette that fits a byte and a
      tile that fits sixteen bits; the editor flag `selected` comes back false. */
  lemma OamRecordRoundTrip(o: Oam.OAM)
    requires o.palette <= 255 && o.tile <= 0xFFFF
    ensures Oam.FromBin(OamRecord(o)) == o.(selected := false)
  {
    var r := OamRecord(o);
    var d := Oam.FromBin(r);
    assert d.shape == o.shape by { assert Oam.ShapeOrdinal(d.shape) == Oam.ShapeOrdinal(o.shape); }
    assert d.size == o.size by { assert Oam.SizeOrdinal(d.size) == Oam.SizeOrdinal(o.size); }
    assert d.flip == o.flip by { assert Oam.FlipOrdinal(d.flip) == Oam.FlipOrdinal(o.flip); }
    assert d.tile == o.tile by { assert WrapU8(o.tile / 256) == o.tile / 256; }
  }

  /** A tile above sixteen bits does not survive: only its low sixteen bits are written. */
  lemma OamRecordTileTruncated(o: Oam.OAM)
    ensures Oam.FromBin(OamRecord(o)).tile == o.tile % 0x10000
  {
    HighLowBytes(o.tile);
  }

  lemma HighLowBytes(t: nat)
    ensures WrapU8(t / 256) * 256 + WrapU8(t) == t % 0x10000
  {
    var q, m := t / 0x10000, t % 0x10000;
    assert t == 0x10000 * q + m;
    assert t / 256 == 256 * q + m / 256;
    assert (t / 256) % 256 == m / 256;
    assert t % 256 == m % 256;
  }

  /** `AnimationCel::from_bin` reads back one emitted record, whatever follows it, when the
      name is ASCII without NUL, the cel holds at most 255 OAMs and each OAM's palette and
      tile fit their bytes. */
  lemma CellRecordRoundTrip(name: string, cel: Cel.AnimationCel, rest: seq<u8>)
    requires IsAscii(name) && NoNul(name) && |cel.oams| <= 255
    requires forall k :: 0 <= k < |cel.oams| ==> cel.oams[k].palette <= 255 && cel.oams[k].tile <= 0xFFFF
    ensures Cel.FromBinSafe(CellRecord(name, cel) + rest)
    ensures Cel.DecodeCelBin(CellRecord(name, cel) + rest) ==
              Cel.AnimationCel(name, seq(|cel.oams|, k requires 0 <= k < |cel.oams| => cel.oams[k].(selected := false)))
  {
    var bin := CellRecord(name, cel) + rest;
    var z := |name|;
    CellRecordFields(name, cel, rest);
    var d := Cel.DecodeCelBin(bin);
    AsciiRoundTrip(name);
    assert d.name == name;
    forall k | 0 <= k < |cel.oams|
      ensures d.oams[k] == cel.oams[k].(selected := false)
    {
      assert d.oams[k] == Oam.FromBin(bin[z + 2 + 8 * k..z + 10 + 8 * k]);
      OamRecordRoundTrip(cel.oams[k]);
    }
  }

  /** Where the fields of a record sit, read through a longer byte string. */
  lemma CellRecordFields(name: string, cel: Cel.AnimationCel, rest: seq<u8>)
    requires IsAscii(name) && NoNul(name) && |cel.oams| <= 255
    ensures var bin := CellRecord(name, cel) + rest;
            FirstZero(bin, 0) == Some(|name|) && |name| + 2 + 8 * |cel.oams| <= |bin| &&
            bin[|name| + 1] == |cel.oams| && bin[..|name|] == StringToBytes(name) &&
            forall k :: 0 <= k < |cel.oams| ==>
              bin[|name| + 2 + 8 * k..|name| + 10 + 8 * k] == OamRecord(cel.oams[k])
  {
    var bin := CellRecord(name, cel) + rest;
    var z := |name|;
    CellRecordLayout(name, cel);
    OamRecordsAt(cel.oams);
    assert bin[z] == 0;
    assert forall j :: 0 <= j < z ==> bin[j] == name[j] as int;
    FirstZeroAt(bin, 0, z);
    assert bin[..z] == StringToBytes(name);
    var recs := OamRecords(cel.oams);
    assert bin[z + 2..z + 2 + |recs|] == recs;
    forall k | 0 <= k < |cel.oams|
      ensures bin[z + 2 + 8 * k..z + 10 + 8 * k] == OamRecord(cel.oams[k])
    {
      assert bin[z + 2 + 8 * k..z + 10 + 8 * k] == recs[8 * k..8 * k + 8];
    }
  }
}
