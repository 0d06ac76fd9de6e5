/** An animation cel: a named list of OAM placements, and its two readers, one for the
    C-array text an external toolchain produces and one for the flat binary record. */
module Cel {
  import opened Common
  import Oam

  datatype AnimationCel = AnimationCel(name: string, oams: seq<Oam.OAM>)

  /** How the text reader ends: it panics on a slice past the end of the text, returns
      None (`Rejected`), or yields a value. */
  datatype Read<T> = Panic | Rejected | Parsed(value: T)

  const LenMarker: string := "/* Len */ "
  const OamMarker: string := "*/ "

  // Where the OAM scan starts: two characters past the end of `/* Len */ `.
  function ScanStart(c: string): nat
    requires Find(c, LenMarker).Some?
  {
    Find(c, LenMarker).value + |LenMarker| + 2
  }

  /** Items read one after another, each with `?`: the first that panics or is None ends
      the reading with that outcome; otherwise every value, in order. */
  function Collect<T>(rs: seq<Read<T>>): (r: Read<seq<T>>)
    ensures r.Parsed? ==> |r.value| == |rs| && forall j :: 0 <= j < |rs| ==> rs[j] == Parsed(r.value[j])
  {
    if rs == [] then Parsed([])
    else match rs[0]
      case Panic => Panic
      case Rejected => Rejected
      case Parsed(v) =>
        match Collect(rs[1..])
        case Panic => Panic
        case Rejected => Rejected
        case Parsed(rest) =>
          assert forall j :: 0 < j < |rs| ==> rs[j] == rs[1..][j - 1];
          Parsed([v] + rest)
  }

  /** Item `j` is the first of `rs` that does not parse. */
  predicate FirstFailing<T>(rs: seq<Read<T>>, j: int)
  {
    0 <= j < |rs| && !rs[j].Parsed? && forall i :: 0 <= i < j ==> rs[i].Parsed?
  }

  /** The reading succeeds exactly when every item parses, and otherwise ends with the
      outcome of the first item that does not. */
  lemma CollectOutcome<T>(rs: seq<Read<T>>)
    ensures Collect(rs).Parsed? <==> forall j :: 0 <= j < |rs| ==> rs[j].Parsed?
    ensures Collect(rs).Panic? <==> exists j :: FirstFailing(rs, j) && rs[j].Panic?
    ensures Collect(rs).Rejected? <==> exists j :: FirstFailing(rs, j) && rs[j].Rejected?
  {
    CollectParsed(rs);
    if !Collect(rs).Parsed? {
      var j := CollectFirstFailure(rs);
      forall i | FirstFailing(rs, i) ensures i == j {
        FirstFailingUnique(rs, i, j);
      }
    }
  }

  lemma {:induction false} CollectParsed<T>(rs: seq<Read<T>>)
    ensures Collect(rs).Parsed? <==> forall j :: 0 <= j < |rs| ==> rs[j].Parsed?
  {
    if rs != [] && forall j :: 0 <= j < |rs| ==> rs[j].Parsed? {
      var tail := rs[1..];
      assert forall j :: 0 <= j < |tail| ==> tail[j] == rs[j + 1];
      CollectParsed(tail);
      assert rs[0].Parsed?;
    }
  }

  /** Where the reading fails, the first item that does not parse gives its outcome. */
  lemma {:induction false} CollectFirstFailure<T>(rs: seq<Read<T>>) returns (j: nat)
    requires !Collect(rs).Parsed?
    ensures FirstFailing(rs, j)
    ensures rs[j].Panic? <==> Collect(rs).Panic?
  {
    if rs[0].Parsed? {
      var tail := rs[1..];
      var i := CollectFirstFailure(tail);
      j := i + 1;
      assert rs[j] == tail[i];
      forall h | 0 <= h < j ensures rs[h].Parsed? {
        if h > 0 {
          assert rs[h] == tail[h - 1];
        }
      }
    } else {
      j := 0;
    }
  }

  lemma FirstFailingUnique<T>(rs: seq<Read<T>>, i: int, j: int)
    requires FirstFailing(rs, i) && FirstFailing(rs, j)
    ensures i == j
  {
  }

  /** One `parse_hex_string(&c[p..p + 2])?`: the slice panics past the end of the text,
      and a field that is not hexadecimal makes the reader return None. */
  function FieldAt(c: string, p: nat): Read<u8>
  {
    if |c| < p + 2 then Panic
    else match ParseHex(c[p..p + 2])
      case None => Rejected
      case Some(b) => Parsed(b)
  }

  // The six hexadecimal fields of the OAM line whose `*/ ` is at `pos`, in the order the
  // code slices them: `*/ 0xAABB, 0xCCDD, 0xEEFF` reads AA, BB, CC, DD, EE, FF.
  function Fields(c: string, pos: nat): seq<Read<u8>>
  {
    [FieldAt(c, pos + 5), FieldAt(c, pos + 7), FieldAt(c, pos + 13),
     FieldAt(c, pos + 15), FieldAt(c, pos + 21), FieldAt(c, pos + 23)]
  }

  // The six fields of the OAM line at `pos`; a line that parses lies inside the text.
  function ParseFields(c: string, pos: nat): (r: Read<seq<u8>>)
    ensures r.Parsed? ==> |r.value| == 6 && pos + 25 <= |c|
  {
    var r := Collect(Fields(c, pos));
    assert r.Parsed? ==> Fields(c, pos)[5].Parsed?;
    r
  }

  // Where the OAM lines start: every `*/ ` after the Len field, the cursor moving four
  // characters past each.
  function OamLines(c: string): seq<nat>
    requires Find(c, LenMarker).Some? && ScanStart(c) <= |c|
  {
    Scan(c, OamMarker, 4, ScanStart(c))
  }

  /** The OAM line at `pos`: its six bytes, as `OAM::new` decodes them. */
  function LineAt(c: string, pos: nat): Read<Oam.OAM>
  {
    match ParseFields(c, pos)
    case Panic => Panic
    case Rejected => Rejected
    case Parsed(bytes) => Parsed(Oam.New(bytes))
  }

  function Lines(c: string, ps: seq<nat>): (r: seq<Read<Oam.OAM>>)
    ensures |r| == |ps| && forall k :: 0 <= k < |ps| ==> r[k] == LineAt(c, ps[k])
  {
    seq(|ps|, k requires 0 <= k < |ps| => LineAt(c, ps[k]))
  }

  /** The OAM lines in order; the first whose fields panic or do not parse decides. */
  function DecodeOams(c: string, ps: seq<nat>): Read<seq<Oam.OAM>>
  {
    Collect(Lines(c, ps))
  }

  /** What the two loops of `AnimationCel::from_c` make of the text between `[` and `;`:
      None without a `/* Len */ ` field, a panic where the scan's cursor passes the end of
      the text, and otherwise the OAM lines read in order. */
  function ReadOams(c: string): Read<seq<Oam.OAM>>
  {
    if Find(c, LenMarker).None? then Rejected
    else if |c| < ScanStart(c) || !ScanSafe(c, OamMarker, 4, ScanStart(c)) then Panic
    else DecodeOams(c, OamLines(c))
  }

  /** `AnimationCel::from_c` returns without panicking. */
  predicate FromCSafe(c: string)
  {
    !ReadOams(c).Panic?
  }

  // What `AnimationCel::from_c` yields for the text between `[` and `;` of a cel.
  function DecodeCelText(c: string, name: string): Option<AnimationCel>
    requires FromCSafe(c)
  {
    match ReadOams(c)
    case Parsed(oams) => Some(AnimationCel(name, oams))
    case _ => None
  }

  /** The outcome of reading the fields of each line at `ps`. */
  function FieldRuns(c: string, ps: seq<nat>): (r: seq<Read<seq<u8>>>)
    ensures |r| == |ps| && forall k :: 0 <= k < |ps| ==> r[k] == ParseFields(c, ps[k])
  {
    seq(|ps|, k requires 0 <= k < |ps| => ParseFields(c, ps[k]))
  }

  /** Line `k` is the first of `ps` whose fields do not parse. */
  predicate FirstFailingLine(c: string, ps: seq<nat>, k: int)
  {
    FirstFailing(FieldRuns(c, ps), k)
  }

  /** Two runs whose items agree on which parse and which panic fail first at the same
      item, with the same outcome. */
  lemma FirstFailingAgree<A, B>(rs: seq<Read<A>>, qs: seq<Read<B>>)
    requires |rs| == |qs|
    requires forall k :: 0 <= k < |rs| ==> rs[k].Parsed? == qs[k].Parsed? && rs[k].Panic? == qs[k].Panic?
    ensures forall k :: FirstFailing(rs, k) <==> FirstFailing(qs, k)
  {
  }

  /** Reading a line fails exactly as reading its fields does. */
  lemma LinesAgree(c: string, ps: seq<nat>)
    ensures forall k :: 0 <= k < |ps| ==>
              Lines(c, ps)[k].Parsed? == FieldRuns(c, ps)[k].Parsed? &&
              Lines(c, ps)[k].Panic? == FieldRuns(c, ps)[k].Panic?
  {
  }

  /** The fields of a line parse exactly when all six do, and otherwise the first field
      that does not parse decides between a panic (its slice leaves the text) and None. */
  lemma ParseFieldsCharacterised(c: string, pos: nat)
    ensures ParseFields(c, pos).Parsed? <==> forall j :: 0 <= j < 6 ==> Fields(c, pos)[j].Parsed?
    ensures ParseFields(c, pos).Panic? <==>
              exists j :: FirstFailing(Fields(c, pos), j) && Fields(c, pos)[j].Panic?
    ensures ParseFields(c, pos).Parsed? ==>
              forall j :: 0 <= j < 6 ==> Fields(c, pos)[j] == Parsed(ParseFields(c, pos).value[j])
  {
    CollectOutcome(Fields(c, pos));
  }

  /** The OAM list parses exactly when every line parses; otherwise the first line that
      does not parse decides between a panic and None. When it parses it holds one
      `OAM::new` per line, in order. */
  lemma DecodeOamsCharacterised(c: string, ps: seq<nat>)
    ensures DecodeOams(c, ps).Parsed? <==> forall k :: 0 <= k < |ps| ==> ParseFields(c, ps[k]).Parsed?
    ensures DecodeOams(c, ps).Panic? <==>
              exists k :: FirstFailingLine(c, ps, k) && ParseFields(c, ps[k]).Panic?
    ensures DecodeOams(c, ps).Rejected? <==>
              exists k :: FirstFailingLine(c, ps, k) && ParseFields(c, ps[k]).Rejected?
    ensures DecodeOams(c, ps).Parsed? ==>
              |DecodeOams(c, ps).value| == |ps| &&
              forall k :: 0 <= k < |ps| ==> DecodeOams(c, ps).value[k] == Oam.New(ParseFields(c, ps[k]).value)
  {
    DecodeOamsOutcome(c, ps);
    if DecodeOams(c, ps).Parsed? {
      DecodeOamsValue(c, ps);
    }
  }

  lemma DecodeOamsOutcome(c: string, ps: seq<nat>)
    ensures DecodeOams(c, ps).Parsed? <==> forall k :: 0 <= k < |ps| ==> FieldRuns(c, ps)[k].Parsed?
    ensures DecodeOams(c, ps).Panic? <==>
              exists k :: FirstFailing(FieldRuns(c, ps), k) && FieldRuns(c, ps)[k].Panic?
    ensures DecodeOams(c, ps).Rejected? <==>
              exists k :: FirstFailing(FieldRuns(c, ps), k) && FieldRuns(c, ps)[k].Rejected?
  {
    var rs := Lines(c, ps);
    var qs := FieldRuns(c, ps);
    CollectOutcome(rs);
    LinesAgree(c, ps);
    FirstFailingAgree(rs, qs);
  }

  lemma DecodeOamsValue(c: string, ps: seq<nat>)
    requires DecodeOams(c, ps).Parsed?
    ensures |DecodeOams(c, ps).value| == |ps| &&
            forall k :: 0 <= k < |ps| ==> DecodeOams(c, ps).value[k] == Oam.New(ParseFields(c, ps[k]).value)
  {
    var oams := DecodeOams(c, ps).value;
    forall k | 0 <= k < |ps| ensures oams[k] == Oam.New(ParseFields(c, ps[k]).value) {
      assert Lines(c, ps)[k] == Parsed(oams[k]);
    }
  }

  // The whole text reader, where it does not panic: None when `/* Len */ ` is missing or
  // when the first OAM line that does not parse has a field that is not hexadecimal;
  // otherwise the cel keeps the given name (the Len value itself is never read) and holds
  // one OAM per `*/ ` found after the Len field.
  lemma DecodeCelTextCharacterised(c: string, name: string)
    requires FromCSafe(c)
    ensures Find(c, LenMarker).None? ==> DecodeCelText(c, name).None?
    ensures Find(c, LenMarker).Some? ==>
              ScanStart(c) <= |c| &&
              (DecodeCelText(c, name).None? <==>
                 exists k :: FirstFailingLine(c, OamLines(c), k) && ParseFields(c, OamLines(c)[k]).Rejected?)
    ensures DecodeCelText(c, name).Some? ==>
              DecodeCelText(c, name).value.name == name &&
              |DecodeCelText(c, name).value.oams| == |OamLines(c)| &&
              forall k :: 0 <= k < |OamLines(c)| ==>
                DecodeCelText(c, name).value.oams[k] == Oam.New(ParseFields(c, OamLines(c)[k]).value)
  {
    if Find(c, LenMarker).Some? {
      DecodeOamsCharacterised(c, OamLines(c));
    }
  }

  /** A cel whose only OAM line is cut short after a field that is not hexadecimal. */
  const ShortLine: string := "/* Len */ 1,\n/* 0 */ 0xzz"

  lemma ShortLineScan()
    ensures Find(ShortLine, LenMarker) == Some(0) && ScanStart(ShortLine) == 12
    ensures OamLines(ShortLine) == [18] && ScanSafe(ShortLine, OamMarker, 4, 12)
  {
    assert OccursAt(ShortLine, LenMarker, 0);
    ShortLineFirstMarker();
    ShortLineNoMoreMarkers();
  }

  lemma ShortLineFirstMarker()
    ensures FindFrom(ShortLine, OamMarker, 12) == Some(18)
  {
    var c := ShortLine;
    assert OccursAt(c, OamMarker, 18);
    assert c[12..15][0] == '\n' && c[13..16][0] == '/' && c[14..17][1] == ' ';
    assert c[15..18][0] == ' ' && c[16..19][0] == '0' && c[17..20][0] == ' ';
    assert !OccursAt(c, OamMarker, 12) && !OccursAt(c, OamMarker, 13) && !OccursAt(c, OamMarker, 14);
    assert !OccursAt(c, OamMarker, 15) && !OccursAt(c, OamMarker, 16) && !OccursAt(c, OamMarker, 17);
  }

  lemma ShortLineNoMoreMarkers()
    ensures FindFrom(ShortLine, OamMarker, 22).None?
  {
    assert ShortLine[22..25][1] == 'z';
  }

  lemma ShortLineFields()
    ensures ParseFields(ShortLine, 18).Rejected?
  {
    var c := ShortLine;
    assert c[23..25] == ['z', 'z'];
    ParseHexPair('z', 'z');
    assert Fields(c, 18)[0].Rejected?;
  }

  /** A short last line is not a panic when an earlier field of it already fails: the
      first field of the line in `ShortLine` is `zz`, and the text ends right after it. */
  lemma ShortLineRejected()
    ensures FromCSafe(ShortLine)
    ensures DecodeCelText(ShortLine, "c").None?
  {
    ShortLineScan();
    ShortLineFields();
    DecodeOamsStep(ShortLine, [18]);
  }

  lemma SubSlice(s: string, i: nat, j: nat, a: nat, b: nat)
    requires i <= j <= |s| && a <= b <= j - i
    ensures s[i..j][a..b] == s[i + a..i + b]
  {
    assert forall k :: 0 <= k < b - a ==> s[i..j][a..b][k] == s[i + a..i + b][k];
  }

  // An OAM line as the C export writes it, `*/ 0x%04x, 0x%04x, 0x%04x`, reads back the
  // six bytes of its three words.
  lemma ParseFieldsOfLine(c: string, pos: nat, bytes: seq<u8>)
    requires |bytes| == 6 && pos + 25 <= |c|
    requires c[pos..pos + 25] == "*/ 0x" + HexByte(bytes[0]) + HexByte(bytes[1]) +
                                 ", 0x" + HexByte(bytes[2]) + HexByte(bytes[3]) +
                                 ", 0x" + HexByte(bytes[4]) + HexByte(bytes[5])
    ensures ParseFields(c, pos) == Parsed(bytes)
  {
    LineSlices(c, pos, bytes);
    HexFieldAt(c, pos + 5, bytes[0]);
    HexFieldAt(c, pos + 7, bytes[1]);
    HexFieldAt(c, pos + 13, bytes[2]);
    HexFieldAt(c, pos + 15, bytes[3]);
    HexFieldAt(c, pos + 21, bytes[4]);
    HexFieldAt(c, pos + 23, bytes[5]);
    var fields := Fields(c, pos);
    assert forall j :: 0 <= j < 6 ==> fields[j] == Parsed(bytes[j]);
    ParseFieldsCharacterised(c, pos);
    SameElements(ParseFields(c, pos).value, bytes);
  }

  /** The six two-character fields of a written OAM line. */
  lemma LineSlices(c: string, pos: nat, bytes: seq<u8>)
    requires |bytes| == 6 && pos + 25 <= |c|
    requires c[pos..pos + 25] == "*/ 0x" + HexByte(bytes[0]) + HexByte(bytes[1]) +
                                 ", 0x" + HexByte(bytes[2]) + HexByte(bytes[3]) +
                                 ", 0x" + HexByte(bytes[4]) + HexByte(bytes[5])
    ensures c[pos + 5..pos + 7] == HexByte(bytes[0]) && c[pos + 7..pos + 9] == HexByte(bytes[1])
    ensures c[pos + 13..pos + 15] == HexByte(bytes[2]) && c[pos + 15..pos + 17] == HexByte(bytes[3])
    ensures c[pos + 21..pos + 23] == HexByte(bytes[4]) && c[pos + 23..pos + 25] == HexByte(bytes[5])
  {
    var line := c[pos..pos + 25];
    SubSlice(c, pos, pos + 25, 5, 7);
    SubSlice(c, pos, pos + 25, 7, 9);
    SubSlice(c, pos, pos + 25, 13, 15);
    SubSlice(c, pos, pos + 25, 15, 17);
    SubSlice(c, pos, pos + 25, 21, 23);
    SubSlice(c, pos, pos + 25, 23, 25);
    assert line[5..7] == HexByte(bytes[0]) && line[7..9] == HexByte(bytes[1]);
    assert line[13..15] == HexByte(bytes[2]) && line[15..17] == HexByte(bytes[3]);
    assert line[21..23] == HexByte(bytes[4]) && line[23..25] == HexByte(bytes[5]);
  }

  /** A field holding the two digits written for a byte reads as that byte. */
  lemma HexFieldAt(c: string, p: nat, b: u8)
    requires p + 2 <= |c| && c[p..p + 2] == HexByte(b)
    ensures FieldAt(c, p) == Parsed(b)
  {
    ParseHexByte(b);
  }

  /** The OAMs decoded so far in front of the outcome of the remaining lines. */
  function Prefixed(acc: seq<Oam.OAM>, r: Read<seq<Oam.OAM>>): Read<seq<Oam.OAM>>
  {
    match r
    case Parsed(rest) => Parsed(acc + rest)
    case _ => r
  }

  lemma PrefixedAppend(acc: seq<Oam.OAM>, more: seq<Oam.OAM>, r: Read<seq<Oam.OAM>>)
    ensures Prefixed(acc, Prefixed(more, r)) == Prefixed(acc + more, r)
  {
    if r.Parsed? {
      assert acc + (more + r.value) == (acc + more) + r.value;
    }
  }

  lemma PrefixedNothing(r: Read<seq<Oam.OAM>>)
    ensures Prefixed([], r) == r
  {
    if r.Parsed? {
      assert [] + r.value == r.value;
    }
  }

  /** The first line of the OAM loop, then the rest. */
  lemma DecodeOamsStep(c: string, ps: seq<nat>)
    requires ps != []
    ensures DecodeOams(c, ps) ==
              match LineAt(c, ps[0])
              case Panic => Panic
              case Rejected => Rejected
              case Parsed(oam) => Prefixed([oam], DecodeOams(c, ps[1..]))
  {
    assert Lines(c, ps)[1..] == Lines(c, ps[1..]);
  }

  /** The second loop of `AnimationCel::from_c`: one `OAM::new` per line, stopping with
      None at the first line whose fields do not parse. */
  method DecodeLines(c: string, ps: seq<nat>) returns (oams: Read<seq<Oam.OAM>>)
    requires !DecodeOams(c, ps).Panic?
    ensures oams == DecodeOams(c, ps)
  {
    var acc: seq<Oam.OAM> := [];
    assert ps[0..] == ps;
    PrefixedNothing(DecodeOams(c, ps));
    for k := 0 to |ps|
      invariant DecodeOams(c, ps) == Prefixed(acc, DecodeOams(c, ps[k..]))
    {
      assert ps[k..][0] == ps[k] && ps[k..][1..] == ps[k + 1..];
      DecodeOamsStep(c, ps[k..]);
      // the six `parse_hex_string(..)?` fields of the line
      var bytes := ParseFields(c, ps[k]);
      if !bytes.Parsed? {
        assert bytes.Rejected?;
        return Rejected;
      }
      var oam := Oam.New(bytes.value);
      PrefixedAppend(acc, [oam], DecodeOams(c, ps[k + 1..]));
      acc := acc + [oam];
    }
    assert ps[|ps|..] == [];
    assert acc + [] == acc;
    return Parsed(acc);
  }

  /** `AnimationCel::from_c`. */
  method FromC(c: string, name: string) returns (cel: Option<AnimationCel>)
    requires FromCSafe(c)
    ensures cel == DecodeCelText(c, name)
  {
    var lenPos := Find(c, LenMarker);
    if lenPos.None? {
      return None;
    }
    var lengthStart := lenPos.value + 10;
    assert lengthStart + 2 == ScanStart(c);
    var oamPositions := ScanPositions(c, OamMarker, 4, 0, lengthStart + 2);
    assert oamPositions == OamLines(c);
    var oams := DecodeLines(c, oamPositions);
    if !oams.Parsed? {
      return None;
    }
    cel := Some(AnimationCel(name, oams.value));
  }


  /** `AnimationCel::from_bin` indexes past the end of its slice unless the name is
      terminated by 0x00 and the count byte and that many eight-byte records follow. */
  predicate FromBinSafe(bin: seq<u8>)
  {
    match FirstZero(bin, 0)
    case None => false
    case Some(z) => z + 1 < |bin| && z + 2 + 8 * (bin[z + 1] as int) <= |bin|
  }

  /** What `AnimationCel::from_bin` yields: the name up to the first 0x00, then a count
      byte, then that many eight-byte `OAM::from_bin` records. */
  function DecodeCelBin(bin: seq<u8>): (cel: AnimationCel)
    requires FromBinSafe(bin)
  {
    var z := FirstZero(bin, 0).value;
    var n := bin[z + 1];
    AnimationCel(BytesToString(bin[..z]),
                 seq(n, k requires 0 <= k < n => Oam.FromBin(bin[z + 2 + 8 * k..z + 10 + 8 * k])))
  }

  /** `AnimationCel::from_bin`. */
  method FromBin(bin: seq<u8>) returns (cel: Option<AnimationCel>)
    requires FromBinSafe(bin)
    ensures cel == Some(DecodeCelBin(bin))
  {
    var name, i := ReadName(bin);
    i := i + 1;
    var length := bin[i];
    var oams: seq<Oam.OAM> := [];
    i := i + 1;
    ghost var all := DecodeCelBin(bin).oams;
    assert |all| == length;
    for x := 0 to length
      invariant oams == all[..x]
    {
      assert all[x] == Oam.FromBin(bin[i + (x * 8)..i + (x * 8) + 8]);
      SnocPrefix(all, x);
      oams := oams + [Oam.FromBin(bin[i + (x * 8)..i + (x * 8) + 8])];
    }
    assert all[..length] == all;
    cel := Some(AnimationCel(name, oams));
  }
}
