# yanimator core, modelled in Dafny

yanimator is an editor for Game Boy Advance sprite animations. This project models its data core and proves properties of it:

- **OAM entries.** An OAM entry is one hardware sprite placement. The model covers the two decoders and the grid of tile indices a placement covers.
- **Animation cels** (named lists of OAM entries). The model has their text reader (the C arrays the game sources hold) and their binary reader (`cells.bin` and the project file).
- **Animations.** An animation is a named list of frames with a declared duration. The model covers:
  - its text reader and binary reader;
  - the two forms of the frame list (duration form and position form) and the conversions between them;
  - the playback lookup from a tick to a frame;
  - the timeline edits (move, insert, remove, update the last duration), and the list of cels the frames use.
- **Project loading.** This is the byte walk over a project file, plus the scanners that pull cel blocks and animation blocks out of C sources.
- **The `cells.bin` writer.**
- **The 4bpp sprite-sheet decoder and the RIFF palette reader.**
- **The timeline panel's keyframe table and input rules.** The table is keyed by frame id. The input handler's rules cover hover, selection, drag and delete.

There is one Dafny module per source component:

| module | models |
|---|---|
| `Common` | machine integers, `Option`, `str::find`, `u8` parsing, the byte-name loop |
| `Oam` | the OAM struct and its geometry |
| `Cel` | `AnimationCel` |
| `Frames` | the two frame forms |
| `Animations` | `Animation`, as a class whose methods update `frames` |
| `Import` | `src/import.rs` |
| `Export` | `src/export.rs` |
| `SpriteParser` | `src/sprite_parser.rs` |
| `PaletteParser` | `src/palette_parser.rs` |
| `Timeline` | the `Timeline` struct and `input` |

Modelling conventions:

- **Loops become loop methods.** Where the code steps through a loop, the model has a method with that loop. Each method is proved equal to a specification function, and the properties are proved about that function.
- **Panics become preconditions.** A panic is an index past the end of a slice, a `usize` underflow or a `u8 +=` overflow. The model states it as a precondition or as an explicit `Panic` outcome.
- **Text is ASCII.** All text is assumed to be ASCII, so byte offsets and character offsets agree.

## Model

| member | source | states |
|---|---|---|
| Common.AsI8 | src/anim_parser.rs:120-121 | `b as i8`: non-negative results equal the byte, negative ones are the byte less 256 |
| Common.WrapI8 | src/anim_parser.rs:88-89 | `v as i8` keeps `v` modulo 256 |
| Common.WrapU8 | src/export.rs:38-48 | `v as u8` is the identity on values that fit a byte |
| Common.WrapU8Small | src/export.rs:38-48 | a value below 256 survives the `as u8` cast |
| Common.BytesToString | src/anim_parser.rs:324-327 | `b as char` per byte: same length, each character's code is its byte |
| Common.StringToBytes | src/export.rs:31-32 | `as_bytes()` of ASCII text: same length, each byte is its character's code |
| Common.AsciiRoundTrip | src/export.rs:31-32 | writing ASCII text as bytes and reading the bytes back as characters gives the text |
| Common.FindFrom | src/anim_parser.rs:289 | `s[from..].find(pat)`: an occurrence at or after `from` with none before it, or None exactly when there is none |
| Common.Find | src/anim_parser.rs:269 | `s.find(pat)`: the first occurrence, or None when there is none |
| Common.Scan | src/anim_parser.rs:289-292 | the cursor loop `while let Some(pos) = s[i..].find(pat)` yields only occurrences, at or after the start |
| Common.ScanFromMatch | src/anim_parser.rs:289-292 | one turn of the cursor loop: the match, then the scan that resumes `step` characters past it |
| Common.ScanHead | src/anim_parser.rs:289-292 | the scan begins with the first match |
| Common.ScanSafeShortStep | src/anim_parser.rs:289-292 | a step no longer than the pattern never moves the cursor past the end, so the slice `s[i..]` never panics |
| Common.ScanPositions | src/anim_parser.rs:286-292 | the cursor loop as a method: the positions it pushes are the scan's matches, each shifted by the constant the code adds |
| Common.ScanStep | src/anim_parser.rs:289-292 | one loop turn keeps the split "matches found so far, then the scan from the cursor" and keeps the cursor in bounds |
| Common.FirstZero | src/anim_parser.rs:324-327 | the first 0x00 at or after `from`, with no 0x00 before it; None exactly when there is none |
| Common.FirstZeroAt | src/anim_parser.rs:324-327 | a 0x00 with none before it is the first zero |
| Common.ReadName | src/anim_parser.rs:321-327 | the name loop stops at the first 0x00 and reads the bytes before it as characters |
| Common.DigitValue | src/anim_parser.rs:260-265 | `to_digit(radix)` yields only values below the radix |
| Common.ParseU8 | src/anim_parser.rs:260-265 | `u8::from_str_radix` succeeds only on a non-empty string other than a lone `+` (the two-character case is characterised by `ParseHexPair`) |
| Common.HexDigit | src/anim_parser.rs:299-304 | the hexadecimal digit written for a nibble reads back as that nibble |
| Common.HexByte | src/anim_parser.rs:299-304 | a byte is written as two digits |
| Common.ParseHexByte | src/anim_parser.rs:260-265 | `parse_hex_string` of a two-digit field gives back the byte it spells |
| Common.ParseHexPair | src/anim_parser.rs:260-265 | a two-character field parses exactly when both characters are hex digits, or the first is `+` and the second a digit; the value is then what the digits spell |
| Oam.WordFields | src/anim_parser.rs:40-42 | the top nibble of a big-endian word `hi:lo` is the top nibble of `hi`, and the low 12 bits are the rest |
| Oam.ShapeOfNibble | src/anim_parser.rs:46-51 | the shape is Horizontal iff the nibble is 0x4, Vertical iff 0x8 |
| Oam.NibbleFields | src/anim_parser.rs:58-73 | the size arm sees bits 15-14 of word 2 and the flip arm sees bits 13-12, so both fallback arms are unreachable |
| Oam.Signed12LowByte | src/anim_parser.rs:53-56 | subtracting 0x100 or 0x200 before `as i8` leaves the low byte read as a signed byte |
| Oam.New | src/anim_parser.rs:38-94 | the shape is Horizontal iff word 1's top nibble is 0x4, Vertical iff 0x8, otherwise Square; size and flip are bits 15-14 and 13-12 of word 2 (the code's masks); x and y are bytes 3 and 1 as `i8`; palette is word 3's top nibble (< 16); tile is its low 12 bits (< 4096); the OAM is unselected |
| Oam.Packed | src/anim_parser.rs:39 | the six bytes that hold an OAM's fields as `0xSYYY, 0xFXXX, 0xPTTT` |
| Oam.NewOfPacked | src/anim_parser.rs:38-94 | `OAM::new` of an OAM's packed words gives it back, unselected: the decoder loses no field |
| Oam.NewOfFields | src/anim_parser.rs:38-94 | any six bytes whose fields are those of an OAM decode to it |
| Oam.SizeOrdinalInjective | src/anim_parser.rs:11-16 | distinct sizes have distinct declaration ordinals |
| Oam.FlipOrdinalInjective | src/anim_parser.rs:18-23 | distinct flips have distinct declaration ordinals |
| Oam.AsI8OfWrap | src/export.rs:44-45 | a signed byte survives `as u8` and then `as i8` |
| Oam.FromBin | src/anim_parser.rs:96-126 | each ordinal byte in range selects that enum value, anything larger the default; x and y are signed bytes; tile is big-endian; the OAM is unselected |
| Oam.Dimensions | src/anim_parser.rs:134-153 | every shape and size covers 1 to 8 tiles in each direction |
| Oam.Range | src/anim_parser.rs:155-170 | `(0..n).collect()` or its reversal: entry k is k, or n-1-k |
| Oam.GetSpriteIndexes | src/anim_parser.rs:128-183 | the grid is h rows of w entries from the shape/size table; entry [r][c] is `tile + xs[c] + 32 ys[r]`, with the axes ascending or reversed as the flip says |
| Oam.FlattenLength | src/anim_parser.rs:185-196 | flattening h rows of width w gives w·h entries |
| Oam.FlattenAt | src/anim_parser.rs:185-196 | flattening puts entry [r][c] at `r w + c` |
| Oam.GetSpriteIndexesOneDimensional | src/anim_parser.rs:185-196 | the 1-D form is the row-major flattening of the grid: w·h entries, [r][c] at `r w + c` |
| Oam.FlattenGrid | src/anim_parser.rs:185-196 | the flattened grid of any OAM is row-major with w·h entries |
| Oam.ReversePermutes | src/anim_parser.rs:158-170 | a reversed axis has the same elements |
| Oam.FlattenReversedRows | src/anim_parser.rs:163 | reversing the row order keeps the multiset of indices |
| Oam.FlattenReversedColumns | src/anim_parser.rs:160 | reversing every row keeps the multiset of indices |
| Oam.GridRowsReversed | src/anim_parser.rs:163-167 | a vertical flip reverses the rows of the grid |
| Oam.GridColumnsReversed | src/anim_parser.rs:160-166 | a horizontal flip reverses each row of the grid |
| Oam.GridFlipPermutes | src/anim_parser.rs:158-180 | every flip covers the same multiset of tiles as no flip; only the order changes |
| Oam.GridDistinct | src/anim_parser.rs:172-180 | no tile is covered twice, because the row stride of 32 is wider than any placement |
| Oam.SquareSize1Example | src/anim_parser.rs:128-196 | Square, Size1, tile 0x10 covers [0x10, 0x11, 0x30, 0x31] |
| Cel.CollectOutcome | src/anim_parser.rs:299-304 | a run of `?` reads succeeds iff every item parses; otherwise it ends with the outcome, a panic or None, of the first item that does not parse |
| Cel.ParseFields | src/anim_parser.rs:299-304 | a line whose six fields parse has six bytes and lies inside the text |
| Cel.ParseFieldsCharacterised | src/anim_parser.rs:299-304 | the six slices are taken in order: the fields parse iff all six do, giving those bytes; otherwise the first field that does not parse panics (its slice leaves the text) or gives None (not hexadecimal) |
| Cel.DecodeOamsCharacterised | src/anim_parser.rs:296-317 | the OAM list parses iff every line parses, and then holds one `OAM::new` per line in order; otherwise the first line that does not parse decides between a panic and None |
| Cel.DecodeCelTextCharacterised | src/anim_parser.rs:268-318 | where the reader does not panic: no `/* Len */ ` marker gives None; otherwise the result is None iff the first line that does not parse has a field that is not hexadecimal, and else the cel has the given name and one OAM per `*/ ` after the Len field (the Len number is ignored) |
| Cel.ShortLineRejected | src/anim_parser.rs:299-304 | a text whose only OAM line stops right after a first field `zz` is read without a panic, as None |
| Cel.ParseFieldsOfLine | src/anim_parser.rs:299-304 | a line `*/ 0xAABB, 0xCCDD, 0xEEFF` written from six bytes parses back to those bytes |
| Cel.DecodeLines | src/anim_parser.rs:296-315 | the OAM loop as a method computes the decoded list, returning None at the first line that does not parse |
| Cel.FromC | src/anim_parser.rs:268-318 | `AnimationCel::from_c`, wherever it does not panic, computes the text decoding characterised above |
| Cel.FromBin | src/anim_parser.rs:320-340 | `AnimationCel::from_bin` yields the name up to the first 0x00, then the count byte's number of 8-byte `OAM::from_bin` records |
| Frames.TotalAppend | src/anim_parser.rs:470-478 | the ticks of two frame lists add up |
| Frames.TotalStep | src/anim_parser.rs:509-517 | each frame's start plus its duration is the next frame's start |
| Frames.TotalMonotone | src/anim_parser.rs:509-517 | frame starts never decrease |
| Frames.PositionsSorted | src/anim_parser.rs:505-520 | positions computed from durations are in order |
| Frames.InsertSplit | src/anim_parser.rs:523 | insertion places a frame after each frame that starts no later, and before the later-starting ones at the end |
| Frames.InsertBefore | src/anim_parser.rs:523 | in a sorted list, every frame in front of the inserted one starts no later |
| Frames.InsertAt | src/anim_parser.rs:523 | element by element, insertion is the list with one frame spliced in |
| Frames.InsertSorted | src/anim_parser.rs:523 | insertion keeps a list sorted and adds exactly that frame to its multiset |
| Frames.InsertKeepsOrder | src/anim_parser.rs:523 | insertion keeps a list sorted |
| Frames.InsertKeepsElements | src/anim_parser.rs:523 | insertion adds exactly one element |
| Frames.SortSortedPermutes | src/anim_parser.rs:523 | `sort_by` on position yields position order and a permutation of its input |
| Frames.SortedPrefix | src/anim_parser.rs:523 | a prefix of a sorted list is sorted |
| Frames.SortSortedIdentity | src/anim_parser.rs:523 | an already sorted list comes back unchanged |
| Frames.AtPositionAppend | src/anim_parser.rs:523 | the frames at one position split over a concatenation |
| Frames.AtPositionNone | src/anim_parser.rs:523 | a list with no frame at a position has none there |
| Frames.AtPositionInsert | src/anim_parser.rs:523 | an inserted frame goes behind the frames already at its position |
| Frames.SortStable | src/anim_parser.rs:523 | stability: among the frames that share a position, the sort keeps their input order |
| Frames.GapAt | src/anim_parser.rs:531-544 | frame i of the duration form keeps its cel and id and lasts `(next start - own start) as u8`; the last frame lasts until the declared duration |
| Frames.PositionedLabelsAppend | src/anim_parser.rs:505-547 | the cels and ids of two lists concatenate |
| Frames.InsertKeepsLabels | src/anim_parser.rs:523 | insertion adds one (cel, id) to the multiset |
| Frames.SortKeepsLabels | src/anim_parser.rs:523 | sorting keeps the multiset of (cel, id) |
| Frames.DurationsOfLabels | src/anim_parser.rs:522-547 | positions to durations keeps the length and the multiset of (cel, id) |
| Frames.DurationsOfPositions | src/anim_parser.rs:505-547 | round trip: durations → positions → durations, with the total as the declared duration, gives the frames back |
| Frames.GapOfPositions | src/anim_parser.rs:531-544 | in that round trip, each gap is the frame's own duration |
| Frames.PositionsOfDurations | src/anim_parser.rs:505-547 | round trip the other way: well-spaced positions (starting at 0, gaps below 256) → durations → positions gives the sorted input, and the durations add up to the declared duration |
| Frames.GapsTotal | src/anim_parser.rs:531-544 | the durations of well-spaced frames add up to the declared duration |
| Frames.GapsPrefix | src/anim_parser.rs:531-544 | the first k durations add up to frame k's position |
| Frames.ToPositioned | src/anim_parser.rs:505-520 | the conversion loop computes the position form: same cels and ids, each starting where the frames before it end |
| Frames.ToDurations | src/anim_parser.rs:522-547 | the conversion loop computes the stable sort followed by the gaps |
| Animations.Tick | src/anim_parser.rs:493-500 | one loop pass of the playback lookup never leaves the frame list; None where it would panic |
| Animations.Playback | src/anim_parser.rs:489-500 | the loop state after t passes stays inside the frame list |
| Animations.FrameAtTick | src/anim_parser.rs:480-503 | tick 0, a tick past the total or no frames gives frame 0; the result is always a frame index |
| Animations.PlaybackInvariant | src/anim_parser.rs:489-500 | when every duration is at least 1, the loop never panics up to the total; after t passes it is i ticks into frame r, and the frames before r last t - i |
| Animations.FrameAtTickInterval | src/anim_parser.rs:480-503 | when every duration is at least 1, tick k in 1..total shows the j with `d0+…+d(j-1) < k ≤ d0+…+dj`; a tick on a boundary still shows the earlier frame |
| Animations.PlaybackDefined | src/anim_parser.rs:493-500 | a loop state that exists after k passes existed before |
| Animations.FrameAtTickStaysOnEmptyFrame | src/anim_parser.rs:493-500 | as written, a 0-tick frame is shown: durations 1, 0, 5 at tick 3 give frame 1 (see Findings) |
| Animations.NextNonEmpty | src/anim_parser.rs:493-500 | the first frame from r on that lasts a tick, with only 0-tick frames before it |
| Animations.TickSkipping | src/anim_parser.rs:493-500 | the corrected loop pass stays inside the frame list |
| Animations.PlaybackSkipping | src/anim_parser.rs:489-500 | the corrected loop state stays inside the frame list |
| Animations.FrameAtTickSkipping | src/anim_parser.rs:480-503 | the corrected lookup agrees with the code on tick 0, past the total and with no frames |
| Animations.TotalZeros | src/anim_parser.rs:493-500 | 0-tick frames add nothing to the ticks before a frame |
| Animations.PlaybackSkippingInvariant | src/anim_parser.rs:489-500 | for any durations, the corrected loop never panics up to the total; it sits on a frame that lasts a tick, at the right offset |
| Animations.TickSkippingStep | src/anim_parser.rs:493-500 | one corrected pass keeps that invariant |
| Animations.TickSkippingAdvance | src/anim_parser.rs:493-500 | at the end of a frame, the corrected loop moves to the next frame that lasts a tick |
| Animations.ShortOfTotal | src/anim_parser.rs:493-500 | a prefix that lasts fewer ticks than the whole leaves a frame out |
| Animations.FrameAtTickSkippingInterval | src/anim_parser.rs:480-503 | corrected: for any durations, tick k in 1..total shows the frame whose ticks contain k, which lasts at least one tick |
| Animations.IndexOfId | src/anim_parser.rs:573 | `position(\|f\| f.id == id)`: the first frame with the id, None iff there is none |
| Animations.Moved | src/anim_parser.rs:553-556 | the moved position form has as many frames as before |
| Animations.MoveFramesNone | src/anim_parser.rs:549-554 | a move fails iff the id is 0, the offset is 0 or no frame has the id |
| Animations.MoveFramesLabels | src/anim_parser.rs:549-560 | a move keeps the frame count and every frame's (cel, id) |
| Animations.MoveFramesPositions | src/anim_parser.rs:549-560 | when the moved positions stay well spaced, only the moved frame's start changes, by the offset, without clamping (the list is then re-sorted) |
| Animations.MoveFramesExample | src/anim_parser.rs:549-560 | frames lasting 5 and 3 in an 8-tick animation: moving the second by +2 gives 7 and 1 |
| Animations.MovedExample | src/anim_parser.rs:553-556 | the moved position form of that example |
| Animations.GapsExample | src/anim_parser.rs:522-547 | the durations of that example |
| Animations.InsertFramesLabels | src/anim_parser.rs:562-568 | insertion adds exactly one frame with the cel and id `old len + 1`, which can repeat an id; the other frames keep their (cel, id) |
| Animations.InsertFramesOrder | src/anim_parser.rs:562-568 | the stable sort puts the new frame after every frame that starts no later |
| Animations.InsertFramesTie | src/anim_parser.rs:562-568 | a new frame at an existing frame's start goes after it, and that frame then lasts 0 ticks |
| Animations.InsertTie | src/anim_parser.rs:523-544 | in sorted frames, a frame inserted at a tied start goes after the tied frame, which then gets duration 0 |
| Animations.RemoveFramesShape | src/anim_parser.rs:570-579 | a removal drops one frame; the previous frame gains its duration; nothing else changes |
| Animations.RemoveFramesTotal | src/anim_parser.rs:570-579 | a removal keeps `get_total_frames` |
| Animations.UpdateLastTotal | src/anim_parser.rs:595-600 | for min ≤ duration ≤ min+255, the animation then lasts exactly the declared duration; only the last frame's duration changes |
| Animations.UpdateLastIdempotent | src/anim_parser.rs:595-600 | updating twice is updating once |
| Animations.FirstIndex | src/anim_parser.rs:601-611 | where a cel first occurs |
| Animations.FirstIndexPrefix | src/anim_parser.rs:601-611 | first occurrences in a prefix stay first occurrences |
| Animations.UsedCelsDedup | src/anim_parser.rs:601-611 | `get_used_cels` lists each cel of the frames exactly once, in order of first use |
| Animations.ReadField | src/anim_parser.rs:388-402 | a field loop stops at the first `stop` after its start, and its text is the non-space characters before it; None means the loop would run off the end |
| Animations.DecodeFramesStops | src/anim_parser.rs:383-416 | once the frame loop returns None or panics, later `{` positions change nothing |
| Animations.DecodeFramesNext | src/anim_parser.rs:383-416 | each pass reads one frame, numbered after the others, or returns None on a duration that is not a `u8` |
| Animations.DecodeFramesParsed | src/anim_parser.rs:383-416 | the frames read have ids 0, 1, … in order, each with its cel name and parsed duration |
| Animations.DecodeFramesLast | src/anim_parser.rs:383-416 | the last `{` adds one frame, numbered after the others |
| Animations.DecodeFramesValue | src/anim_parser.rs:383-416 | a loop that parses yields one frame per `{`, numbered in order |
| Animations.DecodeFramesReadable | src/anim_parser.rs:383-416 | with every field loop ending, the loop does not panic, and it returns None iff some duration is not a `u8` |
| Animations.BinFramesIds | src/anim_parser.rs:437-455 | binary frames are numbered on from the start id in order |
| Animations.BinFramesName | src/anim_parser.rs:439-441 | non-zero bytes append to the current cel name |
| Animations.BinFramesRecord | src/anim_parser.rs:437-455 | one record (name, 0x00, duration) reads one frame, then the rest |
| Animations.FrameBytesRead | src/anim_parser.rs:437-455 | the frame records read back with their cels and durations, numbered from the start id |
| Animations.AnimationBytesRoundTrip | src/anim_parser.rs:421-458 | an animation record (name, 0x00, two skipped length bytes, frames) reads back as its name and frames, renumbered from 0 |
| Animations.Animation.constructor | src/anim_parser.rs:362-367 | the four fields as given |
| Animations.Animation.FromC | src/anim_parser.rs:370-419 | None iff some duration is not a `u8`; otherwise the frames in order, numbered from 0, a duration equal to their total, current frame 0 |
| Animations.Animation.ReadFrames | src/anim_parser.rs:381-416 | the frame loop computes the decoded frames, and its running total is their `get_total_frames` |
| Animations.Animation.ReadFrameFields | src/anim_parser.rs:384-402 | the two character loops read the cel name up to `,` and the duration text up to `}` |
| Animations.Animation.ReadUntil | src/anim_parser.rs:388-393 | one character loop computes `ReadField` |
| Animations.Animation.FromBin | src/anim_parser.rs:421-458 | the name up to the first 0x00 and the binary frames; duration is their total, current frame 0; the code always returns Some |
| Animations.Animation.GetTotalFrames | src/anim_parser.rs:470-478 | the sum of the frame durations |
| Animations.Animation.GetAnimFrameFromFrames | src/anim_parser.rs:480-503 | the loop computes `FrameAtTick`, whose properties are proved above |
| Animations.Animation.MoveAnimFrame | src/anim_parser.rs:549-560 | true iff the move applies; the frames become the moved frames; nothing else changes |
| Animations.Animation.InsertAnimFrame | src/anim_parser.rs:562-568 | the frames become the insertion, whose properties are proved above |
| Animations.Animation.RemoveAnimFrame | src/anim_parser.rs:570-579 | the frames become the removal, whose properties are proved above |
| Animations.Animation.GetMinimumDuration | src/anim_parser.rs:581-593 | the sum of every duration but the last, or 0 without frames |
| Animations.Animation.UpdateDuration | src/anim_parser.rs:595-600 | the last frame lasts `(duration - minimum) as u8`; nothing else changes |
| Animations.Animation.GetUsedCels | src/anim_parser.rs:601-611 | the loop computes the first-use dedup of the cels |
| Import.AnimationsOffset | src/import.rs:21 | bytes 3 to 6 as a big-endian `u32` |
| Import.BigEndian32 | src/import.rs:21 | four big-endian bytes |
| Import.AnimationsOffsetRoundTrip | src/import.rs:21 | the offset reads back from any three leading bytes, which are never inspected |
| Import.RecordName | src/import.rs:24-36 | a cel slice cut at the end of a name has its first 0x00 right after the name |
| Import.CelSlice | src/import.rs:30-36 | each cel slice is exactly name, 0x00, count byte and 8·count bytes |
| Import.AnimationSlice | src/import.rs:60-73 | each animation slice is exactly name, 0x00, two big-endian length bytes and that many bytes |
| Import.CelWalk | src/import.rs:23-47 | the cel loop ends at or past the offset, inside a name run |
| Import.CelWalkRecord | src/import.rs:30-45 | where the walk succeeds, the record at a name's 0x00 lies in the file, `from_bin` reads it, and the walk goes on at the next record's first byte |
| Import.CelMapNames | src/import.rs:38 | the map's keys are exactly the names read |
| Import.CelMapLast | src/import.rs:38 | a later record with the same name replaces an earlier one |
| Import.EmptyProject | src/import.rs:19-23 | `YAN` + [0, 0, 0, 7] gives no cels and no animations |
| Import.LoadProject | src/import.rs:6-88 | `load_project` yields the map of the cels walked and one animation per animation record walked, in file order, each at frame 0 and lasting its frames' total |
| Import.ReadCels | src/import.rs:23-47 | the cel loop as a method computes the map of the cel walk and stops where the walk stops |
| Import.ReadAnimations | src/import.rs:53-85 | the animation loop appends one animation per record read, in order |
| Import.CharOccurs | src/import.rs:106 | `find(c)` on a character matches exactly that character |
| Import.BlockParts | src/import.rs:105-111 | a block's name is the text up to the first `[`, and its body runs from there to the first `;` |
| Import.BlockFindsBracket | src/import.rs:106 | with no `[`, the block is dropped |
| Import.BlockFindsSemicolon | src/import.rs:110 | with no `;` after the `[`, the block is dropped |
| Import.CelStarts | src/import.rs:97-100 | one start per `AnimationCel ` found, 13 characters on, within the text |
| Import.AnimationStarts | src/import.rs:125-128 | one start per `struct Animation ` found, 17 characters on, within the text |
| Import.CandidatesAt | src/import.rs:102-114 | one candidate per start |
| Import.CelCandidates | src/import.rs:97-114 | one candidate per `AnimationCel ` found |
| Import.ReadCelBlock | src/import.rs:104-114 | the closure reads the block's cel or drops it |
| Import.CandidateMapKeys | src/import.rs:115-116 | the collected map has a key iff some block yields a cel with that name, and holds a cel of that name |
| Import.CollectCels | src/import.rs:102-116 | the filter-map-collect as a loop computes the collected map |
| Import.LoadAnimationCelsFromC | src/import.rs:90-117 | a name is a key iff some block's cel has it, and the cel stored under it is one of those; a failing block drops only itself |
| Import.SummariesOf | src/import.rs:130-143 | animations whose names and frames are those read summarise as those |
| Import.ReadAnimationBlock | src/import.rs:132-141 | the closure reads the block's animation, or null when the block does not read |
| Import.ReadAnimationBlocks | src/import.rs:130-143 | one animation per block that reads, in order |
| Import.LoadAnimationsFromC | src/import.rs:119-144 | the animations are the blocks that read, as a multiset (no order is claimed), each at frame 0 with its total as duration |
| Import.StoredCels | src/import.rs:36-38 | cels read back with their OAMs unselected |
| Import.RenumberedAll | src/import.rs:73-76 | animations read back with their frames numbered from 0 |
| Import.CelWalkName | src/import.rs:23-31 | walking over the non-zero bytes of a name changes nothing in the cel walk |
| Import.AnimationWalkName | src/import.rs:53-61 | walking over the non-zero bytes of a name changes nothing in the animation walk |
| Import.CelWalkRecordSome | src/import.rs:30-45 | at a name's 0x00, with the record in the file, the walk reads the record's cel and goes on after it |
| Import.CelWalkAtZero | src/import.rs:26-46 | one step of the cel loop at a name's 0x00: the record lies in the file, and the cels read so far grow by its cel |
| Import.CelRecordDecodes | src/import.rs:36 | `from_bin` reads a stored cel's record back as the stored cel |
| Import.CelRecordBytes | src/import.rs:23-45 | the walk sees a record's name, its 0x00 and the count byte that spans it |
| Import.CelWalkRecordAt | src/import.rs:23-47 | the walk over one record reads its cel and goes on after it |
| Import.CelWalkOneRecord | src/import.rs:23-47 | the walk over any readable record reads its cel and goes on after it |
| Import.CelWalkRegion | src/import.rs:23-47 | the walk over a region of records reads each cel back and stops at the offset |
| Import.AnimationRecordDecodes | src/import.rs:73 | `Animation::from_bin` reads one record back with its frames renumbered |
| Import.AnimationWalkRecord | src/import.rs:63-83 | where the walk succeeds, the record at a name's 0x00 lies in the file and the walk goes on after it |
| Import.AnimationWalkRecordSome | src/import.rs:63-83 | at a name's 0x00, with the record in the file, the walk reads it |
| Import.AnimationRecordBytes | src/import.rs:53-71 | the walk sees a record's name, its 0x00 and the length bytes that span it |
| Import.AnimationWalkRecordAt | src/import.rs:53-85 | the walk over one record reads its animation and goes on after it |
| Import.AnimationWalkRegion | src/import.rs:53-85 | the walk over a region of records reads each animation back |
| Import.ProjectLayout | src/import.rs:19-23 | a project file announces the offset 7 + the cel bytes, and holds the cel region and the animation region |
| Import.ProjectRoundTrip | src/import.rs:6-88 | a project file built from well-formed records, with offset 7 + the cel bytes, reads back every cel and every animation exactly once, in order |
| Export.OamRecord | src/export.rs:41-48 | eight bytes per OAM |
| Export.CreateCellsBin | src/export.rs:27-50 | the loop over the cells, in the map's iteration order, writes each cel's record one after another, with no header |
| Export.PushedRecord | src/export.rs:41-48 | the eight pushes append one OAM record |
| Export.OamRecordsSnoc | src/export.rs:40-49 | the OAM loop appends one record per OAM |
| Export.CellsBinSnoc | src/export.rs:29-50 | the cell loop appends one cel record per name |
| Export.OamRecordsAt | src/export.rs:40-49 | eight bytes per OAM, record k at offset 8k |
| Export.CellRecordLayout | src/export.rs:31-49 | a cel record is `len(name) + 2 + 8n` bytes: name, 0x00, `n as u8`, then the OAM records |
| Export.OamRecordRoundTrip | src/export.rs:41-48 | `OAM::from_bin` returns shape, size, flip, x and y, and returns palette and tile when palette ≤ 255 and tile ≤ 0xFFFF; the result is unselected |
| Export.OamRecordTileTruncated | src/export.rs:47-48 | only the tile's low 16 bits survive |
| Export.HighLowBytes | src/export.rs:47-48 | the high and then the low byte spell the tile modulo 2^16 |
| Export.CellRecordRoundTrip | src/export.rs:29-50 | `AnimationCel::from_bin` reads one emitted record back with the same name and OAMs (unselected) when the name is ASCII without 0x00, n ≤ 255 and every field fits its bytes, whatever follows it |
| Export.CellRecordFields | src/export.rs:31-49 | where each field of a record sits inside a longer byte string |
| SpriteParser.LowerNibbleMaskIsModulo | src/sprite_parser.rs:6 | masking with 0x0F keeps a byte modulo 16 |
| SpriteParser.UpperNibbleMaskIsQuotient | src/sprite_parser.rs:7 | masking with 0xF0 and shifting right by 4 divides by 16 |
| SpriteParser.LeftPixel | src/sprite_parser.rs:15 | a pixel is below 16 |
| SpriteParser.RightPixel | src/sprite_parser.rs:16 | a pixel is below 16 |
| SpriteParser.PixelsOf | src/sprite_parser.rs:13-20 | two pixels per byte, each below 16 |
| SpriteParser.PixelsOfLayout | src/sprite_parser.rs:15-19 | pixel 2i is the low nibble of byte i, pixel 2i+1 the high nibble |
| SpriteParser.PackPixels | src/sprite_parser.rs:14-19 | pixel pairs packed back into bytes: half as many |
| SpriteParser.PackPixelsOf | src/sprite_parser.rs:14-19 | byte i is recovered as `pixel[2i] + 16·pixel[2i+1]`: the decoder loses nothing |
| SpriteParser.PairPixels | src/sprite_parser.rs:15-16 | a packed pair splits back into its pixels |
| SpriteParser.PixelsOfSnoc | src/sprite_parser.rs:13-20 | one more byte adds its two pixels at the end |
| SpriteParser.PixelsOfPack | src/sprite_parser.rs:13-20 | every even-length run of 4-bit pixels is what some bytes decode to |
| SpriteParser.PackSnoc | src/sprite_parser.rs:14-19 | two more pixels pack into one more byte |
| SpriteParser.PixelsOfPackStep | src/sprite_parser.rs:14-19 | packing and then decoding stays the identity when two pixels are appended |
| SpriteParser.SpriteFromFourBpp | src/sprite_parser.rs:10-25 | exactly 0x20 bytes read, exactly 0x40 pixels, pixel 2i the low and 2i+1 the high nibble of byte i |
| SpriteParser.SheetOfLayout | src/sprite_parser.rs:38-41 | sprite i decodes bytes [0x20 i, 0x20 i + 0x20) |
| SpriteParser.SheetIgnoresTrailing | src/sprite_parser.rs:38-41 | bytes after the last whole chunk are ignored |
| SpriteParser.SpritesheetFromFourBpp | src/sprite_parser.rs:33-49 | `len / 0x20` sprites, sprite i from bytes [0x20 i, 0x20 i + 0x20) |
| PaletteParser.LastByteRead | src/palette_parser.rs:24-30 | the highest byte read is 982 |
| PaletteParser.EntryInFile | src/palette_parser.rs:28-30 | every byte read lies inside a file of 983 bytes |
| PaletteParser.ColorsOf | src/palette_parser.rs:27-33 | a palette has as many colours as read |
| PaletteParser.PalettesOf | src/palette_parser.rs:24-36 | as many palettes as read |
| PaletteParser.PalettesLayout | src/palette_parser.rs:24-36 | colour i of palette p is (r, g, b) from bytes `0x18 + 4i + 0x40p` + 0, 1 and 2 |
| PaletteParser.ColorsLayout | src/palette_parser.rs:27-33 | colour i of a palette comes from its entry |
| PaletteParser.ReadAtBounds | src/palette_parser.rs:28-30 | palette p reads only within [0x18 + 0x40p, 0x18 + 0x40(p+1)), and never an entry's flags byte |
| PaletteParser.ReadAtUnique | src/palette_parser.rs:28-30 | no byte is read twice, so palettes never overlap |
| PaletteParser.PalettesOnlyReadColors | src/palette_parser.rs:28-30 | files that agree on the colour bytes give the same palettes: the header, the flags bytes and anything past 982 are ignored |
| PaletteParser.FromPal | src/palette_parser.rs:15-43 | exactly 15 palettes (`0x0..0xF` excludes 15), each of 16 colours, colour i of palette p from its entry |
| Timeline.FindKeyframe | src/panels/timeline.rs:38 | `iter().find`: the first keyframe with the id, None iff there is none |
| Timeline.UpdateKnown | src/panels/timeline.rs:38-41 | on a known id only `input_rect` changes: `selected`, `hovered` and the other keyframes stay |
| Timeline.UpdateUnknown | src/panels/timeline.rs:42-44 | on a new id one keyframe is appended, neither selected nor hovered |
| Timeline.UpdateKeepsTable | src/panels/timeline.rs:37-47 | the table never shrinks, never gets a duplicate id, and then holds the id with the new rectangle |
| Timeline.SelectedIff | src/panels/timeline.rs:49-54 | with unique ids, an id reads as selected iff its keyframe is selected; an unknown id reads as false |
| Timeline.HoveredIff | src/panels/timeline.rs:56-61 | likewise for hovered |
| Timeline.LastHoveredId | src/panels/timeline.rs:282-296 | Some iff some keyframe is under the mouse; then it is the id of the last such keyframe |
| Timeline.Selection | src/panels/timeline.rs:282-304 | the two selection loops keep the table's length |
| Timeline.SelectionHover | src/panels/timeline.rs:283 | every hover flag becomes whether the mouse is over the keyframe, and rectangles and ids stay |
| Timeline.SelectionIdle | src/panels/timeline.rs:289 | without the secondary button, the selection stays |
| Timeline.SelectionAdds | src/panels/timeline.rs:289-295 | with the secondary button and shift, every hovered keyframe is added to the selection |
| Timeline.SelectionReplaces | src/panels/timeline.rs:289-304 | with the secondary button and no shift, once something is hovered only keyframes with the last hovered id stay selected |
| Timeline.Deselected | src/panels/timeline.rs:330-332 | every keyframe deselected, nothing else changed |
| Timeline.DeleteRemovesSelected | src/panels/timeline.rs:309-322 | on Delete with no release, `remove_anim_frame` runs for the selected ids in table order, and only those; the loop panics iff one of those removals does |
| Timeline.EditsIdle | src/panels/timeline.rs:309-322 | without a release or Delete, the frames stay |
| Timeline.EditsZeroOffset | src/panels/timeline.rs:309-318 | with a zero offset and no Delete, a release moves nothing and the offset stays zero, since `move_anim_frame` refuses a zero offset |
| Timeline.QuickClickKeepsLaterFrames | src/panels/timeline.rs:309-318 | a press and release reported together on a hovered selected keyframe reset the drag start, so from that keyframe on nothing moves: the frames are those the earlier keyframes left |
| Timeline.Timeline.Init | src/panels/timeline.rs:25-35 | no keyframes, and `dragging` starts out true |
| Timeline.Timeline.UpdateKeyframe | src/panels/timeline.rs:37-47 | the table becomes the find-or-append update; `dragging` stays |
| Timeline.Timeline.IsKeyframeSelected | src/panels/timeline.rs:49-54 | the stored flag of the first keyframe with the id, or false |
| Timeline.Timeline.IsKeyframeHovered | src/panels/timeline.rs:56-61 | the stored flag of the first keyframe with the id, or false |
| Timeline.Timeline.HoverAndSelect | src/panels/timeline.rs:279-296 | each keyframe's hover flag is set and hovered keyframes are selected under the secondary button; `any_hovered` is set iff something is hovered, and `deselect_others` is the last hovered id when shift is up |
| Timeline.Timeline.DeselectOthers | src/panels/timeline.rs:298-304 | every keyframe whose id differs is deselected; nothing else changes |
| Timeline.Timeline.EditFrames | src/panels/timeline.rs:306-323 | the drag, move and delete loop leaves the animation's frames and the drag flag as the edit loop specifies, the offset turning 0 once a press restarts the drag; the table and the animation's name, duration and current frame stay |
| Timeline.Timeline.Input | src/panels/timeline.rs:279-333 | the selection rules, then the edits, then the end of a drag on release, then "nothing hovered, no drag and a button down deselects all"; the animation's name, duration and current frame stay |

## Left out

- **Drawing.** `OAM::draw`, `AnimationCel::draw` and the timeline's `draw_keyframe` and `ui` are egui drawing. So are the other panels, the menu bar and `main.rs`. None of them is modelled.
- **Floating point.** The pixel offsets, the timeline's zoom and scroll, the middle-button scrub and the drag offset `((x - start_drag_x) / zoom).round()` are floating point. The move offset an input would give from the drag start held before it is an integer input of `Timeline.Timeline.Input`. Within the edit loop the model does follow `start_drag_x`: a press sets it to the mouse position, so the offset is 0 from that keyframe on (`Timeline.QuickClickKeepsLaterFrames`). The position itself, and the offset it gives on later inputs, are not modelled.
- **Rectangles.** `Rect` is a type parameter. Whether the mouse lies in a keyframe's rectangle is a function `contains` given to the input rules.
- **The input events.** The button, key and modifier states are boolean inputs. The Space and arrow keys and the `creation_modal_open` check are app-level state and are left out.
- **File I/O.**
  - `fs::read` and `read_to_string` are left out: the loaders take the file's bytes or text.
  - `File::create` and `write_all` are left out: `create_cells_bin` returns the bytes it would write.
  - The `io::Error` results of the sprite and palette readers are not modelled.
- **Map iteration order.** `create_cells_bin` visits a `HashMap` in an order Rust leaves unspecified. That order is an input of `Export.CreateCellsBin`.
- **Parallel iteration.** rayon's `par_iter` is modelled as a sequential filter-map.
  - `Import.LoadAnimationCelsFromC`: does not state which of several same-name cels ends up in the map, only that the stored cel is one of them, because the parallel collect leaves that open.
  - `Import.LoadAnimationsFromC`: states the animations only as a multiset, because the parallel collect's order is not claimed.
- **Panics.** Indexing past the end of a slice, `frame_positions.remove(0)` on an empty list, `index - 1` at 0 in `remove_anim_frame`, and a `u8 +=` overflow are panics. Each is a precondition of the member that models the code, or an explicit `Panic`/`None` outcome of its specification function.
- **Non-ASCII text.** Names and texts are ASCII. The mix of byte offsets and `chars().nth` in `Animation::from_c`, and the byte-to-`char` reading of names, agree only there.
- **Machine widths.**
  - `u8` wrap-around is written out where the code casts: gap durations, `update_duration`, the export bytes and the count byte.
  - `usize` and `isize` sums are unbounded, since the code never reaches their limits.
- **Render state.** The `playing` flag of the timeline and the `current_frame` of an animation belong to rendering. Neither is changed by the modelled operations.

## Findings

| source | as written | input that shows it | evidently intended | confidence | as-written member | corrected member |
|---|---|---|---|---|---|---|
| src/anim_parser.rs:493-500 | the frame advance is a single `if i == current_frame.duration`, so playback stops on a frame that lasts 0 ticks (one such frame results from `insert_anim_frame` at an existing frame's start, see `Animations.InsertFramesTie`) | durations 1, 0, 5 at tick 3: the lookup returns frame 1, which lasts no tick, although tick 3 falls in frame 2 | a `while` that passes over every 0-tick frame, so that tick k always shows the frame whose ticks contain it | not executed | Animations.FrameAtTickStaysOnEmptyFrame | Animations.FrameAtTickSkippingInterval |

`Animations.Animation.GetAnimFrameFromFrames` models the loop as written. The corrected lookup is `Animations.FrameAtTickSkipping`, and its property is `Animations.FrameAtTickSkippingInterval`.
