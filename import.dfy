/** Loading a project: the byte walk over a project file, and the scanners that pull cel
    and animation blocks out of C source text. */
module Import {
  import opened Common
  import opened Frames
  import Cel
  import Animations
  import Export

  // Project file

  /** `animations_offset`: bytes 3 to 6 as a big-endian 32-bit word. Bytes 0 to 2 are
      never looked at. */
  function AnimationsOffset(bytes: seq<u8>): (offset: nat)
    requires |bytes| >= 7
    ensures offset < 0x1_0000_0000
  {
    (((bytes[3] as int) * 0x100 + bytes[4]) * 0x100 + bytes[5]) * 0x100 + bytes[6]
  }

  /** A 32-bit word as four big-endian bytes. */
  function BigEndian32(n: nat): (r: seq<u8>)
    requires n < 0x1_0000_0000
    ensures |r| == 4
  {
    [n / 0x100 / 0x100 / 0x100, n / 0x100 / 0x100 % 0x100, n / 0x100 % 0x100, n % 0x100]
  }

  /** The offset reads back from any three leading bytes and a big-endian word. */
  lemma AnimationsOffsetRoundTrip(magic: seq<u8>, n: nat, rest: seq<u8>)
    requires |magic| == 3 && n < 0x1_0000_0000
    ensures AnimationsOffset(magic + BigEndian32(n) + rest) == n
  {
    var bytes := magic + BigEndian32(n) + rest;
    var m1 := n / 0x100;
    var m2 := m1 / 0x100;
    assert n == m1 * 0x100 + n % 0x100;
    assert m1 == m2 * 0x100 + m1 % 0x100;
    assert m2 == (m2 / 0x100) * 0x100 + m2 % 0x100;
    assert m2 / 0x100 < 0x100;
    assert bytes[3] == m2 / 0x100 && bytes[4] == m2 % 0x100 && bytes[5] == m1 % 0x100 && bytes[6] == n % 0x100;
  }

  /** The bytes from `start` up to `i` hold no 0x00: the walk is inside a name. */
  predicate NameRun(bytes: seq<u8>, start: nat, i: nat)
  {
    start <= i <= |bytes| && forall q :: start <= q < i ==> bytes[q] != 0x00
  }

  /** A slice cut at the end of a name holds its first 0x00 right after the name. */
  lemma RecordName(bytes: seq<u8>, start: nat, z: nat, end: nat)
    requires NameRun(bytes, start, z) && z < end <= |bytes| && bytes[z] == 0x00
    ensures FirstZero(bytes[start..end], 0) == Some(z - start)
  {
    var s := bytes[start..end];
    assert forall j :: 0 <= j < z - start ==> s[j] == bytes[start + j];
    FirstZeroAt(s, 0, z - start);
  }

  /** The cel slice the walk cuts is exactly one record: the name, 0x00, the count byte and
      8 bytes per OAM; so `AnimationCel::from_bin` reads it without panicking. */
  lemma CelSlice(bytes: seq<u8>, start: nat, z: nat)
    requires NameRun(bytes, start, z) && z + 1 < |bytes| && bytes[z] == 0x00
    requires z + 2 + 8 * (bytes[z + 1] as int) <= |bytes|
    ensures var s := bytes[start..z + 2 + 8 * (bytes[z + 1] as int)];
            FirstZero(s, 0) == Some(z - start) && |s| == (z - start) + 2 + 8 * (s[z - start + 1] as int) &&
            Cel.FromBinSafe(s)
  {
    RecordName(bytes, start, z, z + 2 + 8 * (bytes[z + 1] as int));
  }

  /** The animation slice the walk cuts is the name, 0x00, the two length bytes and as
      many bytes as they say. */
  lemma AnimationSlice(bytes: seq<u8>, start: nat, z: nat)
    requires NameRun(bytes, start, z) && z + 2 < |bytes| && bytes[z] == 0x00
    requires z + 3 + ((bytes[z + 1] as int) * 0x100 + bytes[z + 2]) <= |bytes|
    ensures var s := bytes[start..z + 3 + ((bytes[z + 1] as int) * 0x100 + bytes[z + 2])];
            FirstZero(s, 0) == Some(z - start) &&
            |s| == (z - start) + 3 + ((s[z - start + 1] as int) * 0x100 + s[z - start + 2])
  {
    RecordName(bytes, start, z, z + 3 + ((bytes[z + 1] as int) * 0x100 + bytes[z + 2]));
  }

  /** The cel loop of `load_project` from byte `i`, inside a name that began at `start`:
      the cels in file order and where the loop leaves `i` and the name start. None where
      it panics: a byte read past the end or a slice longer than the file. */
  function CelWalk(bytes: seq<u8>, offset: nat, i: nat, start: nat): (r: Option<(seq<Cel.AnimationCel>, nat, nat)>)
    requires NameRun(bytes, start, i)
    ensures r.Some? ==> r.value.1 >= offset && r.value.1 >= i && NameRun(bytes, r.value.2, r.value.1)
    decreases offset - i
  {
    if i >= offset then Some(([], i, start))
    else if i >= |bytes| then None
    else if bytes[i] != 0x00 then CelWalk(bytes, offset, i + 1, start)
    else if i + 1 >= |bytes| || i + 2 + 8 * (bytes[i + 1] as int) > |bytes| then None
    else
      var end := i + 2 + 8 * (bytes[i + 1] as int);
      CelSlice(bytes, start, i);
      match CelWalk(bytes, offset, end, end)
      case None => None
      case Some(rest) => Some(([Cel.DecodeCelBin(bytes[start..end])] + rest.0, rest.1, rest.2))
  }

  /** Where the cel walk succeeds, at the 0x00 ending a name the count byte and the whole
      record lie inside the file, `AnimationCel::from_bin` can read the record, and the
      walk after the record succeeds too. */
  lemma CelWalkRecord(bytes: seq<u8>, offset: nat, i: nat, start: nat)
    requires NameRun(bytes, start, i) && i < offset && i < |bytes| && bytes[i] == 0x00
    requires CelWalk(bytes, offset, i, start).Some?
    ensures i + 1 < |bytes| && i + 2 + 8 * (bytes[i + 1] as int) <= |bytes|
    ensures Cel.FromBinSafe(bytes[start..i + 2 + 8 * (bytes[i + 1] as int)])
    ensures CelWalk(bytes, offset, i + 2 + 8 * (bytes[i + 1] as int), i + 2 + 8 * (bytes[i + 1] as int)).Some?
  {
    CelSlice(bytes, start, i);
  }

  /** The animation loop of `load_project` from byte `i`, inside a name that began at
      `start`: the name and frames of each animation, in file order. None where it panics,
      which includes `Animation::from_bin` reading a duration past the end of its slice. */
  function AnimationWalk(bytes: seq<u8>, i: nat, start: nat): Option<seq<(string, seq<Frame>)>>
    requires NameRun(bytes, start, i)
    decreases |bytes| - i
  {
    if i >= |bytes| then Some([])
    else if bytes[i] != 0x00 then AnimationWalk(bytes, i + 1, start)
    else if i + 2 >= |bytes| || i + 3 + ((bytes[i + 1] as int) * 0x100 + bytes[i + 2]) > |bytes| then None
    else
      var end := i + 3 + ((bytes[i + 1] as int) * 0x100 + bytes[i + 2]);
      if !Animations.FromBinSafe(bytes[start..end]) then None
      else match AnimationWalk(bytes, end, end)
        case None => None
        case Some(rest) => Some([Animations.DecodeAnimationBin(bytes[start..end])] + rest)
  }

  /** `load_project` on the file's bytes: every cel record and every animation record, in
      file order, or None where the walk panics. */
  function Project(bytes: seq<u8>): Option<(seq<Cel.AnimationCel>, seq<(string, seq<Frame>)>)>
    requires |bytes| >= 7
  {
    match CelWalk(bytes, AnimationsOffset(bytes), 7, 7)
    case None => None
    case Some(cels) =>
      match AnimationWalk(bytes, cels.1, cels.2)
      case None => None
      case Some(animations) => Some((cels.0, animations))
  }

  /** The cel map: each cel inserted under its name in turn. */
  function CelMap(cels: seq<Cel.AnimationCel>): map<string, Cel.AnimationCel>
  {
    if cels == [] then map[]
    else CelMap(cels[..|cels| - 1])[cels[|cels| - 1].name := cels[|cels| - 1]]
  }

  /** The map's names are exactly the names read. */
  lemma {:induction false} CelMapNames(cels: seq<Cel.AnimationCel>)
    ensures CelMap(cels).Keys == set k | 0 <= k < |cels| :: cels[k].name
  {
    if cels != [] {
      var n := |cels| - 1;
      CelMapNames(cels[..n]);
      assert forall k :: 0 <= k < n ==> cels[..n][k] == cels[k];
      assert (set k | 0 <= k < |cels| :: cels[k].name) ==
             (set k | 0 <= k < n :: cels[..n][k].name) + {cels[n].name};
    }
  }

  /** Under each name the map holds the last cel with that name: a later record replaces
      an earlier one. */
  lemma {:induction false} CelMapLast(cels: seq<Cel.AnimationCel>, k: nat)
    requires k < |cels| && forall j :: k < j < |cels| ==> cels[j].name != cels[k].name
    ensures cels[k].name in CelMap(cels) && CelMap(cels)[cels[k].name] == cels[k]
  {
    var n := |cels| - 1;
    if k < n {
      CelMapLast(cels[..n], k);
    }
  }

  /** A file holding only the seven header bytes, with the offset 7: neither loop runs. */
  lemma EmptyProject()
    ensures Project([0x59, 0x41, 0x4E, 0, 0, 0, 7]) == Some(([], []))
  {
  }

  /** `load_project`, without reading the file. */
  method LoadProject(bytes: seq<u8>) returns (animationCels: map<string, Cel.AnimationCel>, animations: seq<Animations.Animation>)
    requires |bytes| >= 7 && Project(bytes).Some?
    ensures animationCels == CelMap(Project(bytes).value.0)
    ensures |animations| == |Project(bytes).value.1|
    ensures forall k :: 0 <= k < |animations| ==>
              fresh(animations[k]) && (animations[k].name, animations[k].frames) == Project(bytes).value.1[k] &&
              animations[k].currentFrame == 0 && animations[k].duration == Total(animations[k].frames)
  {
    var animationsOffset := (((bytes[3] as int) * 0x100 + bytes[4]) * 0x100 + bytes[5]) * 0x100 + bytes[6];
    var i, currentStartIndex;
    animationCels, i, currentStartIndex := ReadCels(bytes, animationsOffset);
    animations := ReadAnimations(bytes, i, currentStartIndex);
  }

  /** The cel loop of `load_project`, from byte 7 up to the animations offset. */
  method ReadCels(bytes: seq<u8>, animationsOffset: nat)
      returns (animationCels: map<string, Cel.AnimationCel>, i: nat, currentStartIndex: nat)
    requires 7 <= |bytes| && CelWalk(bytes, animationsOffset, 7, 7).Some?
    ensures CelWalk(bytes, animationsOffset, 7, 7).value == (CelWalk(bytes, animationsOffset, 7, 7).value.0, i, currentStartIndex)
    ensures animationCels == CelMap(CelWalk(bytes, animationsOffset, 7, 7).value.0)
  {
    ghost var whole := CelWalk(bytes, animationsOffset, 7, 7).value;
    animationCels := map[];
    currentStartIndex := 7;
    var currentEndIndex: nat;
    var nameLength: nat := 0;
    var readName := false;
    i := 7;
    ghost var cels: seq<Cel.AnimationCel> := [];
    ghost var rest := CelWalk(bytes, animationsOffset, i, currentStartIndex).value;
    assert cels + rest.0 == rest.0;
    while i < animationsOffset
      invariant NameRun(bytes, currentStartIndex, i) && currentStartIndex + nameLength == i && !readName
      invariant CelWalk(bytes, animationsOffset, i, currentStartIndex) == Some(rest)
      invariant whole == (cels + rest.0, rest.1, rest.2)
      invariant animationCels == CelMap(cels)
      decreases animationsOffset - i
    {
      var byte := bytes[i];
      ghost var z := i;
      if byte == 0x00 && !readName {
        readName := true;
        CelWalkAtZero(bytes, animationsOffset, i, currentStartIndex, whole, cels, rest);
      }
      i := i + 1;
      nameLength := nameLength + 1;
      // now on the count byte
      if readName {
        currentEndIndex := currentStartIndex + nameLength + (bytes[i] as int) * 8 + 1;
        assert currentEndIndex == z + 2 + 8 * (bytes[z + 1] as int);
        var cell := Cel.FromBin(bytes[currentStartIndex..currentEndIndex]);
        if cell.Some? {
          animationCels := animationCels[cell.value.name := cell.value];
        }
        cels := cels + [cell.value];
        rest := CelWalk(bytes, animationsOffset, currentEndIndex, currentEndIndex).value;
        readName := false;
        nameLength := 0;
        i := currentEndIndex;
        currentStartIndex := i;
      } else {
        rest := CelWalk(bytes, animationsOffset, i, currentStartIndex).value;
      }
    }
    assert cels + [] == cels;
  }

  /** The animation loop of `load_project`, from where the cel loop left off to the end. */
  method ReadAnimations(bytes: seq<u8>, from: nat, fromStart: nat) returns (animations: seq<Animations.Animation>)
    requires NameRun(bytes, fromStart, from) && AnimationWalk(bytes, from, fromStart).Some?
    ensures |animations| == |AnimationWalk(bytes, from, fromStart).value|
    ensures forall k :: 0 <= k < |animations| ==>
              fresh(animations[k]) && (animations[k].name, animations[k].frames) == AnimationWalk(bytes, from, fromStart).value[k] &&
              animations[k].currentFrame == 0 && animations[k].duration == Total(animations[k].frames)
  {
    ghost var whole := AnimationWalk(bytes, from, fromStart).value;
    var i: nat := from;
    var currentStartIndex: nat := fromStart;
    var currentEndIndex: nat;
    var nameLength: nat := from - fromStart;
    var readName := false;
    ghost var found: seq<(string, seq<Frame>)> := [];
    ghost var rest := whole;
    animations := [];
    while i < |bytes|
      invariant NameRun(bytes, currentStartIndex, i) && currentStartIndex + nameLength == i && !readName
      invariant AnimationWalk(bytes, i, currentStartIndex) == Some(rest)
      invariant whole == found + rest
      invariant |animations| == |found|
      invariant forall k :: 0 <= k < |animations| ==>
                  fresh(animations[k]) && (animations[k].name, animations[k].frames) == found[k] &&
                  animations[k].currentFrame == 0 && animations[k].duration == Total(animations[k].frames)
      decreases |bytes| - i
    {
      var byte := bytes[i];
      ghost var z := i;
      if byte == 0x00 && !readName {
        readName := true;
        AnimationWalkRecord(bytes, i, currentStartIndex);
        AnimationWalkRecordSome(bytes, i, currentStartIndex);
      }
      i := i + 1;
      nameLength := nameLength + 1;
      // now on the animation length
      if readName {
        var upperByte := bytes[i];
        i := i + 1;
        var lowerByte := bytes[i];
        var animationLength := (upperByte as int) * 0x100 + lowerByte;
        currentEndIndex := currentStartIndex + nameLength + animationLength + 2;
        assert currentEndIndex == z + 3 + ((bytes[z + 1] as int) * 0x100 + bytes[z + 2]);
        var animation := Animations.Animation.FromBin(bytes[currentStartIndex..currentEndIndex]);
        ghost var record := Animations.DecodeAnimationBin(bytes[currentStartIndex..currentEndIndex]);
        ghost var next := AnimationWalk(bytes, currentEndIndex, currentEndIndex).value;
        AppendShift(found, record, next);
        found := found + [record];
        rest := next;
        animations := animations + [animation];
        readName := false;
        nameLength := 0;
        i := currentEndIndex;
        currentStartIndex := i;
      } else {
        rest := AnimationWalk(bytes, i, currentStartIndex).value;
      }
    }
    assert found + [] == found;
  }

  // C source files

  const CelBlockMarker: string := "AnimationCel "
  const AnimationBlockMarker: string := "struct Animation "

  /** `c == s[j]` exactly when the one-character pattern `[c]` occurs at `j`. */
  lemma CharOccurs(s: string, c: char, j: nat)
    requires j < |s|
    ensures OccursAt(s, [c], j) <==> s[j] == c
  {
    if s[j] == c {
      assert s[j..j + 1] == [c];
    }
  }

  /** The slicing in the filter-map closure: from `start`, the name up to the first `[`
      and the body from after it up to the next `;`. None, which drops the block, when
      either is missing. */
  function Block(s: string, start: nat): Option<(string, string)>
    requires start <= |s|
  {
    var sliced := s[start..];
    match Find(sliced, "[")
    case None => None
    case Some(nameEnd) =>
      match Find(sliced[nameEnd + 1..], ";")
      case None => None
      case Some(strEnd) => Some((sliced[..nameEnd], sliced[nameEnd + 1..nameEnd + 1 + strEnd]))
  }

  /** The name and the body are the text between `start` and the first `[`, and between
      it and the next `;`. */
  lemma BlockParts(s: string, start: nat)
    requires start <= |s| && Block(s, start).Some?
    ensures var name, body := Block(s, start).value.0, Block(s, start).value.1;
            var b := start + |name|;
            b + 1 + |body| < |s| && s[start..b] == name && s[b] == '[' &&
            s[b + 1..b + 1 + |body|] == body && s[b + 1 + |body|] == ';' &&
            (forall q :: 0 <= q < |name| ==> name[q] != '[') &&
            (forall q :: 0 <= q < |body| ==> body[q] != ';')
  {
    var sliced := s[start..];
    var nameEnd := Find(sliced, "[").value;
    var rest := sliced[nameEnd + 1..];
    var strEnd := Find(rest, ";").value;
    forall q | 0 <= q < nameEnd ensures sliced[q] != '[' {
      CharOccurs(sliced, '[', q);
    }
    forall q | 0 <= q < strEnd ensures rest[q] != ';' {
      CharOccurs(rest, ';', q);
    }
    CharOccurs(sliced, '[', nameEnd);
    CharOccurs(rest, ';', strEnd);
  }

  /** A block that reads has a `[` after its start: with none, the block is dropped. */
  lemma BlockFindsBracket(s: string, start: nat)
    requires start <= |s| && Block(s, start).Some?
    ensures exists q :: start <= q < |s| && s[q] == '['
  {
    BlockParts(s, start);
    var b := start + |Block(s, start).value.0|;
    assert s[b] == '[';
  }

  /** A block that reads has a `;` after its first `[`: with none, the block is dropped. */
  lemma BlockFindsSemicolon(s: string, start: nat, p: nat)
    requires start <= p < |s| && s[p] == '[' && (forall q :: start <= q < p ==> s[q] != '[')
    requires Block(s, start).Some?
    ensures exists q :: p < q < |s| && s[q] == ';'
  {
    BlockParts(s, start);
    var name, body := Block(s, start).value.0, Block(s, start).value.1;
    var b := start + |name|;
    assert s[b] == '[';
    assert s[b + 1 + |body|] == ';';
  }

  /** Where the cel blocks start: 13 characters past each `AnimationCel `, the cursor
      moving only 7 past each match. */
  function CelStarts(s: string): (r: seq<nat>)
    ensures forall k :: 0 <= k < |r| ==> r[k] <= |s|
  {
    Shift(Scan(s, CelBlockMarker, 7, 0), |CelBlockMarker|)
  }

  /** Where the animation blocks start: right after each `struct Animation `. */
  function AnimationStarts(s: string): (r: seq<nat>)
    ensures forall k :: 0 <= k < |r| ==> r[k] <= |s|
  {
    Shift(Scan(s, AnimationBlockMarker, 17, 0), |AnimationBlockMarker|)
  }

  /** `AnimationCel::from_c` panics on no block body at the given starts. */
  predicate CelBlocksSafe(s: string, starts: seq<nat>)
  {
    forall k :: 0 <= k < |starts| ==>
      starts[k] <= |s| && (Block(s, starts[k]).Some? ==> Cel.FromCSafe(Block(s, starts[k]).value.1))
  }

  /** `AnimationCel::from_c` panics on no block body the text holds. */
  predicate CelsTextSafe(s: string)
  {
    CelBlocksSafe(s, CelStarts(s))
  }

  /** What the closure yields for the block at `start`. */
  function CelOfBlock(s: string, start: nat): Option<Cel.AnimationCel>
    requires start <= |s| && (Block(s, start).Some? ==> Cel.FromCSafe(Block(s, start).value.1))
  {
    match Block(s, start)
    case None => None
    case Some(b) => Cel.DecodeCelText(b.1, b.0)
  }

  /** What the closure yields for each block at `starts`, in order. */
  function CandidatesAt(s: string, starts: seq<nat>): (r: seq<Option<Cel.AnimationCel>>)
    requires CelBlocksSafe(s, starts)
    ensures |r| == |starts|
  {
    seq(|starts|, k requires 0 <= k < |starts| => CelOfBlock(s, starts[k]))
  }

  /** What the closure yields for each cel block, in file order. */
  function CelCandidates(s: string): (r: seq<Option<Cel.AnimationCel>>)
    requires CelsTextSafe(s)
    ensures |r| == |CelStarts(s)|
  {
    CandidatesAt(s, CelStarts(s))
  }

  /** One block of the closure: the cel read from the block at `start`, if any. */
  method ReadCelBlock(s: string, start: nat) returns (cel: Option<Cel.AnimationCel>)
    requires start <= |s| && (Block(s, start).Some? ==> Cel.FromCSafe(Block(s, start).value.1))
    ensures cel == CelOfBlock(s, start)
  {
    cel := None;
    var block := Block(s, start);
    if block.Some? {
      cel := Cel.FromC(block.value.1, block.value.0);
    }
  }

  /** The cels of `cs` collected into a map by name, a later cel replacing an earlier one
      of the same name: one of the orders a collect may take. */
  function CandidateMap(cs: seq<Option<Cel.AnimationCel>>): map<string, Cel.AnimationCel>
  {
    if cs == [] then map[]
    else
      var m := CandidateMap(cs[..|cs| - 1]);
      match cs[|cs| - 1]
      case None => m
      case Some(c) => m[c.name := c]
  }

  /** A name is a key of the collected map exactly when some cel carries it; the value
      under it is one of the cels, of that name. */
  lemma {:induction false} CandidateMapKeys(cs: seq<Option<Cel.AnimationCel>>)
    ensures forall n :: n in CandidateMap(cs) <==> exists k :: 0 <= k < |cs| && cs[k].Some? && cs[k].value.name == n
    ensures forall n :: n in CandidateMap(cs) ==>
              CandidateMap(cs)[n].name == n && exists k :: 0 <= k < |cs| && cs[k] == Some(CandidateMap(cs)[n])
  {
    if cs != [] {
      var init := cs[..|cs| - 1];
      CandidateMapKeys(init);
      assert forall k :: 0 <= k < |init| ==> init[k] == cs[k];
    }
  }

  /** The closure over the blocks at `starts`, collected into a map by name. */
  method CollectCels(s: string, starts: seq<nat>, ghost candidates: seq<Option<Cel.AnimationCel>>)
      returns (animationCels: map<string, Cel.AnimationCel>)
    requires forall k :: 0 <= k < |starts| ==> starts[k] <= |s|
    requires |candidates| == |starts|
    requires forall k :: 0 <= k < |starts| ==>
               (Block(s, starts[k]).Some? ==> Cel.FromCSafe(Block(s, starts[k]).value.1)) &&
               candidates[k] == CelOfBlock(s, starts[k])
    ensures animationCels == CandidateMap(candidates)
  {
    animationCels := map[];
    for k := 0 to |starts|
      invariant animationCels == CandidateMap(candidates[..k])
    {
      var cel := ReadCelBlock(s, starts[k]);
      assert candidates[..k + 1][..k] == candidates[..k];
      if cel.Some? {
        animationCels := animationCels[cel.value.name := cel.value];
      }
    }
    assert candidates[..|starts|] == candidates;
  }

  /** `load_animation_cels_from_c`, without reading the file: the map holds a cel under a
      name exactly when some block yields a cel of that name, and each value is one of the
      cels read. Which of two same-name blocks wins is left open, as the parallel collect
      leaves it. */
  method LoadAnimationCelsFromC(s: string) returns (animationCels: map<string, Cel.AnimationCel>)
    requires CelsTextSafe(s)
    ensures forall n :: n in animationCels <==>
              exists k :: 0 <= k < |CelCandidates(s)| && CelCandidates(s)[k].Some? &&
                          CelCandidates(s)[k].value.name == n
    ensures forall n :: n in animationCels ==>
              exists k :: 0 <= k < |CelCandidates(s)| && CelCandidates(s)[k] == Some(animationCels[n])
  {
    ScanSafeShortStep(s, CelBlockMarker, 7, 0);
    var celPositions := ScanPositions(s, CelBlockMarker, 7, 13, 0);
    assert celPositions == CelStarts(s);
    animationCels := CollectCels(s, celPositions, CelCandidates(s));
    CandidateMapKeys(CelCandidates(s));
  }

  /** `Animation::from_c` panics on no block body the text holds. */
  predicate AnimationsTextSafe(s: string)
  {
    forall k :: 0 <= k < |AnimationStarts(s)| ==>
      Block(s, AnimationStarts(s)[k]).Some? ==>
        !Animations.DecodeAnimationText(Block(s, AnimationStarts(s)[k]).value.1).Panic?
  }

  /** The name and frames of each animation block that reads, in file order. */
  function AnimationsRead(s: string, starts: seq<nat>): seq<(string, seq<Frame>)>
    requires forall k :: 0 <= k < |starts| ==> starts[k] <= |s|
  {
    if starts == [] then []
    else
      var init := AnimationsRead(s, starts[..|starts| - 1]);
      match Block(s, starts[|starts| - 1])
      case None => init
      case Some(b) =>
        match Animations.DecodeAnimationText(b.1)
        case Parsed(frames) => init + [(b.0, frames)]
        case _ => init
  }

  /** The name and frames of each animation. */
  function Summaries(animations: seq<Animations.Animation>): seq<(string, seq<Frame>)>
    reads set k | 0 <= k < |animations| :: animations[k]
  {
    if animations == [] then []
    else Summaries(animations[..|animations| - 1]) +
         [(animations[|animations| - 1].name, animations[|animations| - 1].frames)]
  }

  /** The summaries of objects that hold the given names and frames are those. */
  lemma {:induction false} SummariesOf(animations: seq<Animations.Animation>, found: seq<(string, seq<Frame>)>)
    requires |animations| == |found|
    requires forall j :: 0 <= j < |animations| ==> (animations[j].name, animations[j].frames) == found[j]
    ensures Summaries(animations) == found
  {
    if animations != [] {
      SummariesOf(animations[..|animations| - 1], found[..|found| - 1]);
    }
  }

  /** One block of the closure: the animation read from the block at `start`, if any. */
  method ReadAnimationBlock(s: string, start: nat) returns (animation: Animations.Animation?)
    requires start <= |s|
    requires Block(s, start).Some? ==> !Animations.DecodeAnimationText(Block(s, start).value.1).Panic?
    ensures animation == null <==>
              Block(s, start).None? || !Animations.DecodeAnimationText(Block(s, start).value.1).Parsed?
    ensures animation != null ==>
              fresh(animation) && animation.currentFrame == 0 &&
              animation.duration == Total(animation.frames) &&
              animation.name == Block(s, start).value.0 &&
              Animations.DecodeAnimationText(Block(s, start).value.1) == Animations.Parsed(animation.frames)
  {
    animation := null;
    var block := Block(s, start);
    if block.Some? {
      animation := Animations.Animation.FromC(block.value.1, block.value.0);
    }
  }

  /** The closure over the blocks at `starts`, one after another: one animation per block
      that reads. */
  method ReadAnimationBlocks(s: string, starts: seq<nat>) returns (animations: seq<Animations.Animation>)
    requires forall k :: 0 <= k < |starts| ==> starts[k] <= |s|
    requires forall k :: 0 <= k < |starts| ==>
               Block(s, starts[k]).Some? ==> !Animations.DecodeAnimationText(Block(s, starts[k]).value.1).Panic?
    ensures |animations| == |AnimationsRead(s, starts)|
    ensures forall j :: 0 <= j < |animations| ==>
              (animations[j].name, animations[j].frames) == AnimationsRead(s, starts)[j]
    ensures forall j :: 0 <= j < |animations| ==>
              fresh(animations[j]) && animations[j].currentFrame == 0 &&
              animations[j].duration == Total(animations[j].frames)
  {
    animations := [];
    ghost var found: seq<(string, seq<Frame>)> := [];
    for k := 0 to |starts|
      invariant found == AnimationsRead(s, starts[..k])
      invariant |animations| == |found|
      invariant forall j :: 0 <= j < |animations| ==>
                  (animations[j].name, animations[j].frames) == found[j]
      invariant forall j :: 0 <= j < |animations| ==>
                  fresh(animations[j]) && animations[j].currentFrame == 0 &&
                  animations[j].duration == Total(animations[j].frames)
    {
      assert starts[..k + 1][..k] == starts[..k];
      var animation := ReadAnimationBlock(s, starts[k]);
      if animation != null {
        animations := animations + [animation];
        found := found + [(animation.name, animation.frames)];
      }
    }
    assert starts[..|starts|] == starts;
  }

  /** `load_animations_from_c`, without reading the file: one animation per block that
      reads, each at frame 0 and lasting its frames' total. Their order is not stated, as
      the parallel collect is not modelled. */
  method LoadAnimationsFromC(s: string) returns (animations: seq<Animations.Animation>)
    requires AnimationsTextSafe(s)
    ensures multiset(Summaries(animations)) == multiset(AnimationsRead(s, AnimationStarts(s)))
    ensures forall k :: 0 <= k < |animations| ==>
              fresh(animations[k]) && animations[k].currentFrame == 0 &&
              animations[k].duration == Total(animations[k].frames)
  {
    ScanSafeShortStep(s, AnimationBlockMarker, 17, 0);
    var animPositions := ScanPositions(s, AnimationBlockMarker, 17, 17, 0);
    assert animPositions == AnimationStarts(s);
    animations := ReadAnimationBlocks(s, animPositions);
    SummariesOf(animations, AnimationsRead(s, animPositions));
  }

  // A project file laid out as `load_project` expects

  /** A cel the record format holds: an ASCII name without 0x00, at most 255 OAMs, each
      palette index a byte and each tile index 16 bits. */
  predicate StorableCel(c: Cel.AnimationCel)
  {
    IsAscii(c.name) && NoNul(c.name) && |c.oams| <= 255 &&
    forall k :: 0 <= k < |c.oams| ==> c.oams[k].palette <= 255 && c.oams[k].tile <= 0xFFFF
  }

  /** A cel as it reads back: its OAMs come back unselected. */
  function Stored(c: Cel.AnimationCel): Cel.AnimationCel
  {
    Cel.AnimationCel(c.name, seq(|c.oams|, k requires 0 <= k < |c.oams| => c.oams[k].(selected := false)))
  }

  /** The cels as they read back, in order. */
  function StoredCels(cs: seq<Cel.AnimationCel>): (r: seq<Cel.AnimationCel>)
    ensures |r| == |cs| && forall k :: 0 <= k < |cs| ==> r[k] == Stored(cs[k])
  {
    if cs == [] then [] else [Stored(cs[0])] + StoredCels(cs[1..])
  }

  /** The cel records one after another. */
  function CelRegion(cs: seq<Cel.AnimationCel>): seq<u8>
    requires forall k :: 0 <= k < |cs| ==> StorableCel(cs[k])
  {
    if cs == [] then [] else assert StorableCel(cs[0]); Export.CellRecord(cs[0].name, cs[0]) + CelRegion(cs[1..])
  }

  /** An animation the record format holds: ASCII names without 0x00 and frames that fit
      the two-byte length. */
  predicate StorableAnimation(a: (string, seq<Frame>))
  {
    IsAscii(a.0) && NoNul(a.0) &&
    (forall k :: 0 <= k < |a.1| ==> IsAscii(a.1[k].cell) && NoNul(a.1[k].cell)) &&
    |Animations.FrameBytes(a.1)| < 0x10000
  }

  /** One animation record, its length bytes holding the length of its frames. */
  function AnimationRecord(a: (string, seq<Frame>)): seq<u8>
    requires StorableAnimation(a)
  {
    var n := |Animations.FrameBytes(a.1)|;
    Animations.AnimationBytes(a.0, n / 0x100, n % 0x100, a.1)
  }

  /** An animation as it reads back: its frames numbered from 0 in order. */
  function Renumbered(a: (string, seq<Frame>)): (string, seq<Frame>)
  {
    (a.0, seq(|a.1|, k requires 0 <= k < |a.1| => a.1[k].(id := k)))
  }

  /** The animations as they read back, in order. */
  function RenumberedAll(anims: seq<(string, seq<Frame>)>): (r: seq<(string, seq<Frame>)>)
    ensures |r| == |anims| && forall k :: 0 <= k < |anims| ==> r[k] == Renumbered(anims[k])
  {
    if anims == [] then [] else [Renumbered(anims[0])] + RenumberedAll(anims[1..])
  }

  /** The animation records one after another. */
  function AnimationRegion(anims: seq<(string, seq<Frame>)>): seq<u8>
    requires forall k :: 0 <= k < |anims| ==> StorableAnimation(anims[k])
  {
    if anims == [] then [] else AnimationRecord(anims[0]) + AnimationRegion(anims[1..])
  }

  /** A whole project file: three leading bytes, the offset of the animations as a
      big-endian word, the cel records and the animation records. */
  function ProjectBytes(magic: seq<u8>, cs: seq<Cel.AnimationCel>, anims: seq<(string, seq<Frame>)>): seq<u8>
    requires |magic| == 3
    requires forall k :: 0 <= k < |cs| ==> StorableCel(cs[k])
    requires forall k :: 0 <= k < |anims| ==> StorableAnimation(anims[k])
    requires 7 + |CelRegion(cs)| < 0x1_0000_0000
  {
    magic + BigEndian32(7 + |CelRegion(cs)|) + CelRegion(cs) + AnimationRegion(anims)
  }

  /** Walking over the non-zero bytes of a name changes nothing in the cel walk. */
  lemma {:induction false} CelWalkName(bytes: seq<u8>, offset: nat, i: nat, start: nat, n: nat)
    requires NameRun(bytes, start, i) && NameRun(bytes, i, i + n) && i + n <= offset
    ensures NameRun(bytes, start, i + n)
    ensures CelWalk(bytes, offset, i, start) == CelWalk(bytes, offset, i + n, start)
    decreases n
  {
    if n > 0 {
      CelWalkName(bytes, offset, i + 1, start, n - 1);
    }
  }

  /** Walking over the non-zero bytes of a name changes nothing in the animation walk. */
  lemma {:induction false} AnimationWalkName(bytes: seq<u8>, i: nat, start: nat, n: nat)
    requires NameRun(bytes, start, i) && i + n <= |bytes|
    requires forall q :: i <= q < i + n ==> bytes[q] != 0x00
    ensures NameRun(bytes, start, i + n)
    ensures AnimationWalk(bytes, i, start) == AnimationWalk(bytes, i + n, start)
    decreases n
  {
    if n > 0 {
      AnimationWalkName(bytes, i + 1, start, n - 1);
    }
  }

  /** At the 0x00 ending a name, with the whole record inside the file, the walk reads the
      record and goes on after it whenever the rest of the walk succeeds. */
  lemma CelWalkRecordSome(bytes: seq<u8>, offset: nat, i: nat, start: nat, end: nat)
    requires NameRun(bytes, start, i) && i < offset && i + 1 < |bytes| && bytes[i] == 0x00
    requires end == i + 2 + 8 * (bytes[i + 1] as int) && end <= |bytes|
    ensures Cel.FromBinSafe(bytes[start..end])
    ensures CelWalk(bytes, offset, end, end).Some? ==>
              CelWalk(bytes, offset, i, start) ==
                Some(([Cel.DecodeCelBin(bytes[start..end])] + CelWalk(bytes, offset, end, end).value.0,
                      CelWalk(bytes, offset, end, end).value.1, CelWalk(bytes, offset, end, end).value.2))
  {
    CelSlice(bytes, start, i);
  }

  /** One step of the cel loop at the 0x00 ending a name: the record lies in the file,
      `AnimationCel::from_bin` can read it, and the cels read so far, this one and the rest
      of the walk make up the whole walk. */
  lemma CelWalkAtZero(bytes: seq<u8>, offset: nat, i: nat, start: nat,
                      whole: (seq<Cel.AnimationCel>, nat, nat), cels: seq<Cel.AnimationCel>,
                      rest: (seq<Cel.AnimationCel>, nat, nat))
    requires NameRun(bytes, start, i) && i < offset && i < |bytes| && bytes[i] == 0x00
    requires CelWalk(bytes, offset, i, start) == Some(rest)
    requires whole == (cels + rest.0, rest.1, rest.2)
    ensures i + 1 < |bytes| && i + 2 + 8 * (bytes[i + 1] as int) <= |bytes|
    ensures Cel.FromBinSafe(bytes[start..i + 2 + 8 * (bytes[i + 1] as int)])
    ensures CelWalk(bytes, offset, i + 2 + 8 * (bytes[i + 1] as int), i + 2 + 8 * (bytes[i + 1] as int)).Some?
    ensures whole ==
              ((cels + [Cel.DecodeCelBin(bytes[start..i + 2 + 8 * (bytes[i + 1] as int)])]) +
                 CelWalk(bytes, offset, i + 2 + 8 * (bytes[i + 1] as int), i + 2 + 8 * (bytes[i + 1] as int)).value.0,
               CelWalk(bytes, offset, i + 2 + 8 * (bytes[i + 1] as int), i + 2 + 8 * (bytes[i + 1] as int)).value.1,
               CelWalk(bytes, offset, i + 2 + 8 * (bytes[i + 1] as int), i + 2 + 8 * (bytes[i + 1] as int)).value.2)
  {
    CelWalkRecord(bytes, offset, i, start);
    var end := i + 2 + 8 * (bytes[i + 1] as int);
    CelWalkRecordSome(bytes, offset, i, start, end);
    var next := CelWalk(bytes, offset, end, end).value;
    AppendShift(cels, Cel.DecodeCelBin(bytes[start..end]), next.0);
  }

  /** `AnimationCel::from_bin` reads a stored cel's record back as the stored cel. */
  lemma CelRecordDecodes(c: Cel.AnimationCel)
    requires StorableCel(c)
    ensures Cel.FromBinSafe(Export.CellRecord(c.name, c))
    ensures Cel.DecodeCelBin(Export.CellRecord(c.name, c)) == Stored(c)
  {
    Export.CellRecordRoundTrip(c.name, c, []);
    assert Export.CellRecord(c.name, c) + [] == Export.CellRecord(c.name, c);
  }

  /** The bytes of a cel record in place: a name without 0x00, the 0x00 ending it and the
      count byte giving the record's length. */
  lemma CelRecordBytes(bytes: seq<u8>, c: Cel.AnimationCel, p: nat)
    requires StorableCel(c)
    requires p + |Export.CellRecord(c.name, c)| <= |bytes|
    requires bytes[p..p + |Export.CellRecord(c.name, c)|] == Export.CellRecord(c.name, c)
    ensures forall q :: p <= q < p + |c.name| ==> bytes[q] != 0x00
    ensures bytes[p + |c.name|] == 0x00 && p + |c.name| + 1 < |bytes|
    ensures p + |c.name| + 2 + 8 * (bytes[p + |c.name| + 1] as int) == p + |Export.CellRecord(c.name, c)|
  {
    var rec := Export.CellRecord(c.name, c);
    Export.CellRecordLayout(c.name, c);
    var z := p + |c.name|;
    assert forall q :: 0 <= q < |rec| ==> bytes[p + q] == rec[q];
    forall q | p <= q < z ensures bytes[q] != 0x00 {
      assert bytes[q] == rec[q - p] == c.name[q - p] as int;
    }
    assert bytes[z] == rec[|c.name|] && bytes[z + 1] == rec[|c.name| + 1];
  }

  /** The cel walk over one record at `p`, before the offset, reads its cel back and goes
      on after it. */
  lemma CelWalkRecordAt(bytes: seq<u8>, offset: nat, c: Cel.AnimationCel, p: nat)
    requires StorableCel(c)
    requires p + |Export.CellRecord(c.name, c)| <= offset
    requires p + |Export.CellRecord(c.name, c)| <= |bytes|
    requires bytes[p..p + |Export.CellRecord(c.name, c)|] == Export.CellRecord(c.name, c)
    ensures var end := p + |Export.CellRecord(c.name, c)|;
            CelWalk(bytes, offset, end, end).Some? ==>
              CelWalk(bytes, offset, p, p) ==
                Some(([Stored(c)] + CelWalk(bytes, offset, end, end).value.0,
                      CelWalk(bytes, offset, end, end).value.1, CelWalk(bytes, offset, end, end).value.2))
  {
    CelRecordBytes(bytes, c, p);
    CelRecordDecodes(c);
    var end := p + |Export.CellRecord(c.name, c)|;
    CelDecodesAlike(Export.CellRecord(c.name, c), bytes[p..end]);
    CelWalkOneRecord(bytes, offset, p, |c.name|, end, Stored(c));
  }

  /** The cel walk over any record from `p` to `end` that `AnimationCel::from_bin` reads
      as `cel`: a name of `nameLength` non-zero bytes, the 0x00 and the count byte that
      gives the record's length. */
  lemma CelWalkOneRecord(bytes: seq<u8>, offset: nat, p: nat, nameLength: nat, end: nat, cel: Cel.AnimationCel)
    requires end <= offset && end <= |bytes|
    requires p + nameLength + 1 < |bytes| && bytes[p + nameLength] == 0x00
    requires NameRun(bytes, p, p + nameLength)
    requires p + nameLength + 2 + 8 * (bytes[p + nameLength + 1] as int) == end
    requires Cel.FromBinSafe(bytes[p..end]) && Cel.DecodeCelBin(bytes[p..end]) == cel
    ensures CelWalk(bytes, offset, end, end).Some? ==>
              CelWalk(bytes, offset, p, p) ==
                Some(([cel] + CelWalk(bytes, offset, end, end).value.0,
                      CelWalk(bytes, offset, end, end).value.1, CelWalk(bytes, offset, end, end).value.2))
  {
    var z := p + nameLength;
    assert NameRun(bytes, p, z) && CelWalk(bytes, offset, p, p) == CelWalk(bytes, offset, z, p) by {
      CelWalkName(bytes, offset, p, p, nameLength);
    }
    var rest := CelWalk(bytes, offset, end, end);
    if rest.Some? {
      assert CelWalk(bytes, offset, z, p) == Some(([cel] + rest.value.0, rest.value.1, rest.value.2)) by {
        CelWalkRecordSome(bytes, offset, z, p, end);
      }
    }
  }

  /** Equal records decode alike. */
  lemma CelDecodesAlike(a: seq<u8>, b: seq<u8>)
    requires a == b && Cel.FromBinSafe(a)
    ensures Cel.FromBinSafe(b) && Cel.DecodeCelBin(a) == Cel.DecodeCelBin(b)
  {
  }

  /** The cel walk over a region of records reads each cel back and stops at the offset
      the region ends at. */
  lemma {:induction false} CelWalkRegion(bytes: seq<u8>, offset: nat, p: nat, cs: seq<Cel.AnimationCel>)
    requires forall k :: 0 <= k < |cs| ==> StorableCel(cs[k])
    requires p + |CelRegion(cs)| == offset <= |bytes| && bytes[p..offset] == CelRegion(cs)
    ensures CelWalk(bytes, offset, p, p) == Some((StoredCels(cs), offset, offset))
    decreases |cs|
  {
    if cs != [] {
      var c := cs[0];
      var rec := Export.CellRecord(c.name, c);
      var q := p + |rec|;
      assert bytes[p..q] == bytes[p..offset][..|rec|];
      assert bytes[q..offset] == bytes[p..offset][|rec|..];
      CelWalkRegion(bytes, offset, q, cs[1..]);
      CelWalkRecordAt(bytes, offset, c, p);
    }
  }

  /** `Animation::from_bin` reads one record back with its frames renumbered. */
  lemma AnimationRecordDecodes(a: (string, seq<Frame>))
    requires StorableAnimation(a)
    ensures Animations.FromBinSafe(AnimationRecord(a))
    ensures Animations.DecodeAnimationBin(AnimationRecord(a)) == Renumbered(a)
  {
    var n := |Animations.FrameBytes(a.1)|;
    var rec := AnimationRecord(a);
    Animations.AnimationBytesRoundTrip(a.0, n / 0x100, n % 0x100, a.1);
    var frames := Animations.BinFrames(rec, |a.0| + 3, [], 0).value;
    assert frames == Renumbered(a).1;
  }

  /** Where the animation walk succeeds, at the 0x00 ending a name the two length bytes
      and the whole record lie inside the file, `Animation::from_bin` can read the record,
      and the walk after the record succeeds too. */
  lemma AnimationWalkRecord(bytes: seq<u8>, i: nat, start: nat)
    requires NameRun(bytes, start, i) && i < |bytes| && bytes[i] == 0x00
    requires AnimationWalk(bytes, i, start).Some?
    ensures i + 2 < |bytes| && i + 3 + ((bytes[i + 1] as int) * 0x100 + bytes[i + 2]) <= |bytes|
    ensures Animations.FromBinSafe(bytes[start..i + 3 + ((bytes[i + 1] as int) * 0x100 + bytes[i + 2])])
    ensures AnimationWalk(bytes, i + 3 + ((bytes[i + 1] as int) * 0x100 + bytes[i + 2]),
                          i + 3 + ((bytes[i + 1] as int) * 0x100 + bytes[i + 2])).Some?
  {
  }

  /** At the 0x00 ending a name, with the whole record inside the file and readable, the
      animation walk reads the record and goes on after it whenever the rest succeeds. */
  lemma AnimationWalkRecordSome(bytes: seq<u8>, i: nat, start: nat)
    requires NameRun(bytes, start, i) && i + 2 < |bytes| && bytes[i] == 0x00
    requires i + 3 + ((bytes[i + 1] as int) * 0x100 + bytes[i + 2]) <= |bytes|
    requires Animations.FromBinSafe(bytes[start..i + 3 + ((bytes[i + 1] as int) * 0x100 + bytes[i + 2])])
    ensures var end := i + 3 + ((bytes[i + 1] as int) * 0x100 + bytes[i + 2]);
            AnimationWalk(bytes, end, end).Some? ==>
              AnimationWalk(bytes, i, start) ==
                Some([Animations.DecodeAnimationBin(bytes[start..end])] + AnimationWalk(bytes, end, end).value)
  {
  }

  /** The bytes of an animation record in place: a name without 0x00, the 0x00 ending it
      and the two length bytes giving the record's length. */
  lemma AnimationRecordBytes(bytes: seq<u8>, a: (string, seq<Frame>), p: nat)
    requires StorableAnimation(a)
    requires p + |AnimationRecord(a)| <= |bytes|
    requires bytes[p..p + |AnimationRecord(a)|] == AnimationRecord(a)
    ensures forall q :: p <= q < p + |a.0| ==> bytes[q] != 0x00
    ensures bytes[p + |a.0|] == 0x00 && p + |a.0| + 2 < |bytes|
    ensures p + |a.0| + 3 + ((bytes[p + |a.0| + 1] as int) * 0x100 + bytes[p + |a.0| + 2]) ==
              p + |AnimationRecord(a)|
  {
    var n := |Animations.FrameBytes(a.1)|;
    var rec := AnimationRecord(a);
    var z := p + |a.0|;
    assert |rec| == |a.0| + 3 + n;
    assert forall q :: 0 <= q < |rec| ==> bytes[p + q] == rec[q];
    forall q | p <= q < z ensures bytes[q] != 0x00 {
      assert bytes[q] == rec[q - p] == a.0[q - p] as int;
    }
    assert bytes[z] == 0x00 && bytes[z + 1] == n / 0x100 && bytes[z + 2] == n % 0x100;
  }

  /** The animation walk over one record at `p` reads its animation back and goes on after
      it. */
  lemma AnimationWalkRecordAt(bytes: seq<u8>, a: (string, seq<Frame>), p: nat)
    requires StorableAnimation(a)
    requires p + |AnimationRecord(a)| <= |bytes|
    requires bytes[p..p + |AnimationRecord(a)|] == AnimationRecord(a)
    ensures var end := p + |AnimationRecord(a)|;
            AnimationWalk(bytes, end, end).Some? ==>
              AnimationWalk(bytes, p, p) == Some([Renumbered(a)] + AnimationWalk(bytes, end, end).value)
  {
    var z := p + |a.0|;
    AnimationRecordBytes(bytes, a, p);
    AnimationWalkName(bytes, p, p, |a.0|);
    AnimationRecordDecodes(a);
    AnimationWalkRecordSome(bytes, z, p);
  }

  /** The animation walk over a region of records reads each animation back. */
  lemma {:induction false} AnimationWalkRegion(bytes: seq<u8>, p: nat, anims: seq<(string, seq<Frame>)>)
    requires forall k :: 0 <= k < |anims| ==> StorableAnimation(anims[k])
    requires p + |AnimationRegion(anims)| == |bytes| && bytes[p..] == AnimationRegion(anims)
    ensures AnimationWalk(bytes, p, p) == Some(RenumberedAll(anims))
    decreases |anims|
  {
    if anims != [] {
      var a := anims[0];
      var rec := AnimationRecord(a);
      var q := p + |rec|;
      assert bytes[p..q] == bytes[p..][..|rec|];
      assert bytes[q..] == bytes[p..][|rec|..];
      AnimationWalkRegion(bytes, q, anims[1..]);
      AnimationWalkRecordAt(bytes, a, p);
    }
  }

  /** The parts of a project file: the offset it announces and the two regions. */
  lemma ProjectLayout(magic: seq<u8>, cs: seq<Cel.AnimationCel>, anims: seq<(string, seq<Frame>)>)
    requires |magic| == 3
    requires forall k :: 0 <= k < |cs| ==> StorableCel(cs[k])
    requires forall k :: 0 <= k < |anims| ==> StorableAnimation(anims[k])
    requires 7 + |CelRegion(cs)| < 0x1_0000_0000
    ensures var bytes, offset := ProjectBytes(magic, cs, anims), 7 + |CelRegion(cs)|;
            |bytes| >= 7 && AnimationsOffset(bytes) == offset && offset <= |bytes| &&
            bytes[7..offset] == CelRegion(cs) && bytes[offset..] == AnimationRegion(anims)
  {
    var offset := 7 + |CelRegion(cs)|;
    var bytes := ProjectBytes(magic, cs, anims);
    assert bytes == magic + BigEndian32(offset) + (CelRegion(cs) + AnimationRegion(anims));
    AnimationsOffsetRoundTrip(magic, offset, CelRegion(cs) + AnimationRegion(anims));
    assert bytes == magic + BigEndian32(offset) + CelRegion(cs) + AnimationRegion(anims);
  }

  /** A project file laid out as `load_project` expects reads back its cels, their OAMs
      unselected, and its animations, their frames numbered in order. */
  lemma ProjectRoundTrip(magic: seq<u8>, cs: seq<Cel.AnimationCel>, anims: seq<(string, seq<Frame>)>)
    requires |magic| == 3
    requires forall k :: 0 <= k < |cs| ==> StorableCel(cs[k])
    requires forall k :: 0 <= k < |anims| ==> StorableAnimation(anims[k])
    requires 7 + |CelRegion(cs)| < 0x1_0000_0000
    ensures Project(ProjectBytes(magic, cs, anims)) == Some((StoredCels(cs), RenumberedAll(anims)))
  {
    var offset := 7 + |CelRegion(cs)|;
    var bytes := ProjectBytes(magic, cs, anims);
    ProjectLayout(magic, cs, anims);
    CelWalkRegion(bytes, offset, 7, cs);
    AnimationWalkRegion(bytes, offset, anims);
  }
}
