/** `Animation`: a named list of frames with a declared duration. Its text and binary
    readers, the playback lookup and the timeline edits. */
module Animations {
  import opened Common
  import opened Frames

  // Playback

  /** One pass of the loop body of `get_anim_frame_from_frames`, in frame `r`, `i` ticks
      into it: when `i` has reached the frame's duration, the loop moves to the next frame
      and restarts the count; then it counts the tick. None where the code panics, which is
      indexing past the last frame or the `u8` counter overflowing. */
  function Tick(fs: seq<Frame>, r: nat, i: nat): (next: Option<(nat, nat)>)
    ensures next.Some? ==> next.value.0 < |fs|
  {
    if r >= |fs| then None
    else
      var r2 := if i == fs[r].duration then r + 1 else r;
      var i2 := if i == fs[r].duration then 0 else i;
      if r2 >= |fs| || i2 + 1 > 255 then None else Some((r2, i2 + 1))
  }

  /** The loop state after `t` passes. */
  function Playback(fs: seq<Frame>, t: nat): (s: Option<(nat, nat)>)
    ensures s.Some? && fs != [] ==> s.value.0 < |fs|
  {
    if t == 0 then Some((0, 0))
    else match Playback(fs, t - 1)
      case None => None
      case Some(st) => Tick(fs, st.0, st.1)
  }

  /** What `get_anim_frame_from_frames(k)` returns, or None where it panics. */
  function FrameAtTick(fs: seq<Frame>, k: nat): (r: Option<nat>)
    ensures (k > Total(fs) || fs == [] || k == 0) ==> r == Some(0)
    ensures r.Some? && fs != [] ==> r.value < |fs|
  {
    if k > Total(fs) || fs == [] then Some(0)
    else match Playback(fs, k)
      case None => None
      case Some(st) => Some(st.0)
  }

  /** With every duration at least one, the loop never panics up to the total, and after
      `t` passes it is `i` ticks into frame `r`, where the frames before `r` last `t - i`. */
  lemma {:induction false} PlaybackInvariant(fs: seq<Frame>, t: nat)
    requires forall j :: 0 <= j < |fs| ==> fs[j].duration >= 1
    requires fs != [] && t <= Total(fs)
    ensures Playback(fs, t).Some?
    ensures var st := Playback(fs, t).value;
            st.0 < |fs| && Total(fs[..st.0]) + st.1 == t && st.1 <= fs[st.0].duration &&
            (t >= 1 ==> st.1 >= 1)
  {
    if t == 0 {
      assert fs[..0] == [];
    } else {
      PlaybackInvariant(fs, t - 1);
      var st := Playback(fs, t - 1).value;
      var r := st.0;
      TotalStep(fs, r);
      if st.1 == fs[r].duration {
        assert r + 1 < |fs|;
      }
    }
  }

  /** With every duration at least one, tick `k` (from 1 to the total) shows the frame `j`
      whose ticks `Total(fs[..j]) + 1 ..= Total(fs[..j + 1])` contain `k`: a tick on a
      boundary still shows the earlier frame. */
  lemma FrameAtTickInterval(fs: seq<Frame>, k: nat)
    requires forall j :: 0 <= j < |fs| ==> fs[j].duration >= 1
    requires 1 <= k <= Total(fs)
    ensures FrameAtTick(fs, k).Some?
    ensures var j := FrameAtTick(fs, k).value;
            j < |fs| && Total(fs[..j]) < k <= Total(fs[..j + 1])
  {
    assert fs != [];
    PlaybackInvariant(fs, k);
    TotalStep(fs, Playback(fs, k).value.0);
  }

  /** With a frame that lasts no tick, the loop stays on it: durations 1, 0, 5 at tick 3
      give frame 1, although tick 3 falls in frame 2. */
  lemma FrameAtTickStaysOnEmptyFrame()
    ensures var fs := [Frame("a", 1, 0), Frame("b", 0, 1), Frame("c", 5, 2)];
            FrameAtTick(fs, 3) == Some(1) && fs[1].duration == 0 &&
            Total(fs[..2]) < 3 <= Total(fs[..3])
  {
    var fs := [Frame("a", 1, 0), Frame("b", 0, 1), Frame("c", 5, 2)];
    assert fs[..0] == [] && fs[..3] == fs;
    TotalStep(fs, 0);
    TotalStep(fs, 1);
    TotalStep(fs, 2);
    assert Playback(fs, 1) == Some((0, 1));
    assert Playback(fs, 2) == Some((1, 1));
    assert Playback(fs, 3) == Some((1, 2));
  }

  /** The first frame at or after `r` that lasts at least one tick, or `|fs|`. */
  function NextNonEmpty(fs: seq<Frame>, r: nat): (n: nat)
    requires r <= |fs|
    ensures r <= n <= |fs|
    ensures forall j :: r <= j < n ==> fs[j].duration == 0
    ensures n < |fs| ==> fs[n].duration > 0
    decreases |fs| - r
  {
    if r == |fs| || fs[r].duration > 0 then r else NextNonEmpty(fs, r + 1)
  }

  /** The loop body with its `if` turned into `while i == current_frame.duration`, which
      passes over the frames that last no tick. */
  function TickSkipping(fs: seq<Frame>, r: nat, i: nat): (next: Option<(nat, nat)>)
    ensures next.Some? ==> next.value.0 < |fs|
  {
    if r >= |fs| then None
    else
      var r2 := if i == fs[r].duration then NextNonEmpty(fs, r + 1) else r;
      var i2 := if i == fs[r].duration then 0 else i;
      if r2 >= |fs| || i2 + 1 > 255 then None else Some((r2, i2 + 1))
  }

  function PlaybackSkipping(fs: seq<Frame>, t: nat): (s: Option<(nat, nat)>)
    ensures s.Some? && fs != [] ==> s.value.0 < |fs|
  {
    if t == 0 then Some((0, 0))
    else match PlaybackSkipping(fs, t - 1)
      case None => None
      case Some(st) => TickSkipping(fs, st.0, st.1)
  }

  /** `get_anim_frame_from_frames` with the frame advance made a `while` loop. */
  function FrameAtTickSkipping(fs: seq<Frame>, k: nat): (r: Option<nat>)
    ensures (k > Total(fs) || fs == [] || k == 0) ==> r == Some(0)
  {
    if k > Total(fs) || fs == [] then Some(0)
    else match PlaybackSkipping(fs, k)
      case None => None
      case Some(st) => Some(st.0)
  }

  /** Frames that last no tick add nothing to the ticks before a frame. */
  lemma {:induction false} TotalZeros(fs: seq<Frame>, a: nat, b: nat)
    requires a <= b <= |fs|
    requires forall j :: a <= j < b ==> fs[j].duration == 0
    ensures Total(fs[..b]) == Total(fs[..a])
    decreases b - a
  {
    if a < b {
      TotalZeros(fs, a, b - 1);
      TotalStep(fs, b - 1);
    }
  }

  lemma {:induction false} PlaybackSkippingInvariant(fs: seq<Frame>, t: nat)
    requires fs != [] && t <= Total(fs)
    ensures PlaybackSkipping(fs, t).Some?
    ensures var st := PlaybackSkipping(fs, t).value;
            st.0 < |fs| && Total(fs[..st.0]) + st.1 == t && st.1 <= fs[st.0].duration &&
            (t >= 1 ==> st.1 >= 1)
  {
    if t == 0 {
      assert fs[..0] == [];
    } else {
      PlaybackSkippingInvariant(fs, t - 1);
      var st := PlaybackSkipping(fs, t - 1).value;
      var r, i := st.0, st.1;
      TickSkippingStep(fs, r, i, t - 1);
    }
  }

  /** One tick of the corrected loop from a state inside the animation: the next state
      is inside it too, one tick further, on a frame that lasts at least one tick. */
  lemma TickSkippingStep(fs: seq<Frame>, r: nat, i: nat, t: nat)
    requires r < |fs| && Total(fs[..r]) + i == t && i <= fs[r].duration && t < Total(fs)
    ensures TickSkipping(fs, r, i).Some?
    ensures var st := TickSkipping(fs, r, i).value;
            st.0 < |fs| && Total(fs[..st.0]) + st.1 == t + 1 && 1 <= st.1 <= fs[st.0].duration
  {
    if i == fs[r].duration {
      TickSkippingAdvance(fs, r, t);
    } else {
      assert TickSkipping(fs, r, i) == Some((r, i + 1));
    }
  }

  /** At the end of a frame the corrected loop moves to the next frame that lasts a tick,
      which exists while ticks remain, and shows its first tick. */
  lemma TickSkippingAdvance(fs: seq<Frame>, r: nat, t: nat)
    requires r < |fs| && Total(fs[..r]) + fs[r].duration == t && t < Total(fs)
    ensures NextNonEmpty(fs, r + 1) < |fs|
    ensures TickSkipping(fs, r, fs[r].duration) == Some((NextNonEmpty(fs, r + 1), 1))
    ensures Total(fs[..NextNonEmpty(fs, r + 1)]) == t
  {
    var n := NextNonEmpty(fs, r + 1);
    TotalStep(fs, r);
    TotalZeros(fs, r + 1, n);
    ShortOfTotal(fs, n);
  }

  /** A prefix that lasts fewer ticks than the whole leaves a frame out. */
  lemma ShortOfTotal(fs: seq<Frame>, n: nat)
    requires n <= |fs| && Total(fs[..n]) < Total(fs)
    ensures n < |fs|
  {
    assert fs[..|fs|] == fs;
  }

  /** Corrected playback: for any durations, tick `k` from 1 to the total shows the frame
      whose ticks contain `k`, which therefore lasts at least one tick. */
  lemma FrameAtTickSkippingInterval(fs: seq<Frame>, k: nat)
    requires 1 <= k <= Total(fs)
    ensures FrameAtTickSkipping(fs, k).Some?
    ensures var j := FrameAtTickSkipping(fs, k).value;
            j < |fs| && Total(fs[..j]) < k <= Total(fs[..j + 1]) && fs[j].duration >= 1
  {
    assert fs != [];
    PlaybackSkippingInvariant(fs, k);
    TotalStep(fs, PlaybackSkipping(fs, k).value.0);
  }

  // Edits

  /** `iter().position(|f| f.id == id)`: the first frame with that id. */
  function IndexOfId(fs: seq<Frame>, id: nat): (r: Option<nat>)
    ensures r.Some? ==> r.value < |fs| && fs[r.value].id == id
    ensures r.Some? ==> forall j :: 0 <= j < r.value ==> fs[j].id != id
    ensures r.None? ==> forall j :: 0 <= j < |fs| ==> fs[j].id != id
  {
    if fs == [] then None
    else if fs[0].id == id then Some(0)
    else match IndexOfId(fs[1..], id)
      case None => None
      case Some(j) => Some(j + 1)
  }

  /** The position form with frame `j` moved by `offset`, unclamped. */
  function Moved(fs: seq<Frame>, j: nat, offset: int): (ps: seq<Positioned>)
    requires j < |fs|
    ensures |ps| == |fs|
  {
    var ps := PositionsOf(fs);
    ps[j := ps[j].(position := ps[j].position + offset)]
  }

  /** `move_anim_frame`: None, changing nothing, for id 0, offset 0 or an absent id;
      otherwise the frames after moving the first frame with that id by `offset`. */
  function MoveFrames(fs: seq<Frame>, duration: int, id: nat, offset: int): Option<seq<Frame>>
  {
    if id == 0 || offset == 0 then None
    else match IndexOfId(fs, id)
      case None => None
      case Some(j) => Some(DurationsOf(Moved(fs, j, offset), duration))
  }

  lemma MoveFramesNone(fs: seq<Frame>, duration: int, id: nat, offset: int)
    ensures MoveFrames(fs, duration, id, offset).None? <==>
              id == 0 || offset == 0 || forall k :: 0 <= k < |fs| ==> fs[k].id != id
  {
    if id != 0 && offset != 0 && forall k :: 0 <= k < |fs| ==> fs[k].id != id {
      assert IndexOfId(fs, id).None?;
    }
  }

  /** A move keeps the number of frames and every frame's cel and id. */
  lemma MoveFramesLabels(fs: seq<Frame>, duration: int, id: nat, offset: int)
    requires MoveFrames(fs, duration, id, offset).Some?
    ensures |MoveFrames(fs, duration, id, offset).value| == |fs|
    ensures multiset(Labels(MoveFrames(fs, duration, id, offset).value)) == multiset(Labels(fs))
  {
    var j := IndexOfId(fs, id).value;
    var ps := Moved(fs, j, offset);
    DurationsOfLabels(ps, duration);
    assert PositionedLabels(ps) == Labels(fs);
  }

  /** A move changes only the moved frame's start: when the moved positions stay
      representable, the result starts its frames exactly there. */
  lemma MoveFramesPositions(fs: seq<Frame>, duration: int, id: nat, offset: int)
    requires MoveFrames(fs, duration, id, offset).Some?
    requires WellSpaced(SortByPosition(Moved(fs, IndexOfId(fs, id).value, offset)), duration)
    ensures PositionsOf(MoveFrames(fs, duration, id, offset).value) ==
              SortByPosition(Moved(fs, IndexOfId(fs, id).value, offset))
  {
    PositionsOfDurations(Moved(fs, IndexOfId(fs, id).value, offset), duration);
  }

  /** Frames lasting 5 and 3 in an animation of 8 ticks: moving the second by +2 makes
      them last 7 and 1. */
  lemma MoveFramesExample()
    ensures MoveFrames([Frame("a", 5, 0), Frame("b", 3, 1)], 8, 1, 2) ==
              Some([Frame("a", 7, 0), Frame("b", 1, 1)])
  {
    var fs := [Frame("a", 5, 0), Frame("b", 3, 1)];
    var ps := [Positioned("a", 0, 0), Positioned("b", 7, 1)];
    MovedExample(fs, ps);
    GapsExample(ps);
  }

  lemma MovedExample(fs: seq<Frame>, ps: seq<Positioned>)
    requires fs == [Frame("a", 5, 0), Frame("b", 3, 1)]
    requires ps == [Positioned("a", 0, 0), Positioned("b", 7, 1)]
    ensures IndexOfId(fs, 1) == Some(1) && Moved(fs, 1, 2) == ps
  {
    assert fs[..0] == [];
    TotalStep(fs, 0);
    assert PositionsOf(fs) == [Positioned("a", 0, 0), Positioned("b", 5, 1)];
  }

  lemma GapsExample(ps: seq<Positioned>)
    requires ps == [Positioned("a", 0, 0), Positioned("b", 7, 1)]
    ensures DurationsOf(ps, 8) == [Frame("a", 7, 0), Frame("b", 1, 1)]
  {
    SortSortedIdentity(ps);
    GapAt(ps, 8, 0);
    GapAt(ps, 8, 1);
    WrapU8Small(7);
    WrapU8Small(1);
    var g := Gaps(ps, 8);
    assert g[0] == Frame("a", 7, 0) && g[1] == Frame("b", 1, 1);
  }

  /** The frame `insert_anim_frame` adds: its id is the old number of frames plus one. */
  function NewFrame(fs: seq<Frame>, cell: string, position: int): Positioned
  {
    Positioned(cell, position, |fs| + 1)
  }

  /** `insert_anim_frame`: the frames with one more starting at `position`. */
  function InsertFrames(fs: seq<Frame>, duration: int, cell: string, position: int): seq<Frame>
  {
    DurationsOf(PositionsOf(fs) + [NewFrame(fs, cell, position)], duration)
  }

  /** Inserting adds exactly one frame, labelled with the cel and the id `|fs| + 1`, and
      keeps every other cel and id; that id may already be taken after a removal. */
  lemma InsertFramesLabels(fs: seq<Frame>, duration: int, cell: string, position: int)
    ensures |InsertFrames(fs, duration, cell, position)| == |fs| + 1
    ensures multiset(Labels(InsertFrames(fs, duration, cell, position))) ==
              multiset(Labels(fs)) + multiset{(cell, |fs| + 1)}
  {
    var ps := PositionsOf(fs) + [NewFrame(fs, cell, position)];
    DurationsOfLabels(ps, duration);
    assert PositionedLabels(ps) == Labels(fs) + [(cell, |fs| + 1)];
  }

  /** The stable sort puts the new frame after every frame that starts no later. */
  lemma InsertFramesOrder(fs: seq<Frame>, cell: string, position: int)
    ensures SortByPosition(PositionsOf(fs) + [NewFrame(fs, cell, position)]) ==
              InsertByPosition(NewFrame(fs, cell, position), PositionsOf(fs))
  {
    var ps := PositionsOf(fs);
    var x := NewFrame(fs, cell, position);
    PositionsSorted(fs);
    SortSortedIdentity(ps);
    assert (ps + [x])[..|ps|] == ps;
  }

  /** When the new frame starts where an existing one does, it goes after it, and the frame
      in front of it then lasts no tick. */
  lemma InsertFramesTie(fs: seq<Frame>, duration: int, cell: string, position: int, j: nat)
    requires j < |fs| && Total(fs[..j]) == position
    ensures var m := InsertIndex(NewFrame(fs, cell, position), PositionsOf(fs));
            var r := InsertFrames(fs, duration, cell, position);
            1 <= m <= |fs| && |r| == |fs| + 1 &&
            r[m].cell == cell && r[m].id == |fs| + 1 && r[m - 1].duration == 0
  {
    var ps := PositionsOf(fs);
    PositionsSorted(fs);
    InsertFramesOrder(fs, cell, position);
    assert ps[j].position == position;
    InsertTie(NewFrame(fs, cell, position), ps, j, duration);
  }

  /** In sorted `ps`, a frame inserted at the start of `ps[j]` goes after it and every
      frame with that start, so the one in front of it lasts no tick. */
  lemma InsertTie(x: Positioned, ps: seq<Positioned>, j: nat, duration: int)
    requires SortedByPosition(ps) && j < |ps| && ps[j].position == x.position
    ensures var m := InsertIndex(x, ps); var g := Gaps(InsertByPosition(x, ps), duration);
            1 <= m <= |ps| && |g| == |ps| + 1 &&
            g[m].cell == x.cell && g[m].id == x.id && g[m - 1].duration == 0
  {
    InsertSplit(x, ps);
    InsertBefore(x, ps);
    var m := InsertIndex(x, ps);
    var s := InsertByPosition(x, ps);
    assert j < m;
    assert ps[m - 1].position == x.position;
    assert s[m - 1] == ps[m - 1] && s[m] == x;
    GapAt(s, duration, m - 1);
    GapAt(s, duration, m);
    WrapU8Small(0);
  }

  /** `remove_anim_frame` panics when the removed frame is the first one (`index - 1`
      underflows) or when the merged duration overflows a `u8`. */
  predicate RemoveSafe(fs: seq<Frame>, id: nat)
  {
    id == 0 || IndexOfId(fs, id).None? ||
    (IndexOfId(fs, id).value >= 1 &&
     fs[IndexOfId(fs, id).value - 1].duration + fs[IndexOfId(fs, id).value].duration <= 255)
  }

  /** `remove_anim_frame`: nothing for id 0 or an absent id; otherwise the first frame
      with the id goes and the frame before it takes over its ticks. */
  function RemoveFrames(fs: seq<Frame>, id: nat): seq<Frame>
    requires RemoveSafe(fs, id)
  {
    if id == 0 || IndexOfId(fs, id).None? then fs
    else
      var j := IndexOfId(fs, id).value;
      var rest := fs[..j] + fs[j + 1..];
      rest[j - 1 := fs[j - 1].(duration := fs[j - 1].duration + fs[j].duration)]
  }

  /** Removing changes nothing else: one frame fewer, the frames before and after in place,
      and the previous frame's duration grown by the removed one's. */
  lemma RemoveFramesShape(fs: seq<Frame>, id: nat)
    requires RemoveSafe(fs, id) && id != 0 && IndexOfId(fs, id).Some?
    ensures var j := IndexOfId(fs, id).value; var r := RemoveFrames(fs, id);
            |r| == |fs| - 1 &&
            (forall k :: 0 <= k < j - 1 ==> r[k] == fs[k]) &&
            r[j - 1].cell == fs[j - 1].cell && r[j - 1].id == fs[j - 1].id &&
            r[j - 1].duration == fs[j - 1].duration + fs[j].duration &&
            (forall k :: j <= k < |r| ==> r[k] == fs[k + 1])
  {
  }

  /** Removing keeps the animation's length in ticks. */
  lemma RemoveFramesTotal(fs: seq<Frame>, id: nat)
    requires RemoveSafe(fs, id)
    ensures Total(RemoveFrames(fs, id)) == Total(fs)
  {
    if id != 0 && IndexOfId(fs, id).Some? {
      var j := IndexOfId(fs, id).value;
      var r := RemoveFrames(fs, id);
      var a, b, c := fs[..j - 1], fs[j - 1], fs[j + 1..];
      var merged := b.(duration := b.duration + fs[j].duration);
      assert fs == a + [b] + [fs[j]] + c;
      assert r == a + [merged] + c;
      TotalAppend(a + [b] + [fs[j]], c);
      TotalAppend(a + [b], [fs[j]]);
      TotalAppend(a, [b]);
      TotalAppend(a + [merged], c);
      TotalAppend(a, [merged]);
      assert Total([b]) == b.duration by { assert [b][..0] == []; }
      assert Total([fs[j]]) == fs[j].duration by { assert [fs[j]][..0] == []; }
      assert Total([merged]) == merged.duration by { assert [merged][..0] == []; }
    }
  }

  // Duration bookkeeping

  /** `get_minimum_duration`: where the last frame starts, the sum of every duration but
      the last, or 0 without frames. */
  function MinimumDuration(fs: seq<Frame>): nat
  {
    if fs == [] then 0 else Total(fs[..|fs| - 1])
  }

  /** `update_duration`: the last frame lasts the declared duration less the minimum, cast
      to `u8`. The subtraction is on `usize` and panics below the minimum. */
  function UpdateLast(fs: seq<Frame>, duration: nat): seq<Frame>
    requires fs == [] || duration >= MinimumDuration(fs)
  {
    if fs == [] then []
    else fs[|fs| - 1 := fs[|fs| - 1].(duration := WrapU8(duration - MinimumDuration(fs)))]
  }

  /** In the range the properties panel allows, the animation then lasts exactly the
      declared duration; only the last frame's duration changes. */
  lemma UpdateLastTotal(fs: seq<Frame>, duration: nat)
    requires fs != [] && MinimumDuration(fs) <= duration <= MinimumDuration(fs) + 255
    ensures Total(UpdateLast(fs, duration)) == duration
    ensures |UpdateLast(fs, duration)| == |fs|
    ensures UpdateLast(fs, duration)[..|fs| - 1] == fs[..|fs| - 1]
    ensures Labels(UpdateLast(fs, duration)) == Labels(fs)
  {
    var r := UpdateLast(fs, duration);
    var n := |fs| - 1;
    WrapU8Small(duration - MinimumDuration(fs));
    assert r[..n] == fs[..n];
    assert Total(r) == Total(r[..n]) + r[n].duration;
  }

  /** Updating twice is updating once. */
  lemma UpdateLastIdempotent(fs: seq<Frame>, duration: nat)
    requires fs == [] || duration >= MinimumDuration(fs)
    ensures UpdateLast(fs, duration) == [] || duration >= MinimumDuration(UpdateLast(fs, duration))
    ensures UpdateLast(UpdateLast(fs, duration), duration) == UpdateLast(fs, duration)
  {
    if fs != [] {
      var r := UpdateLast(fs, duration);
      assert r[..|r| - 1] == fs[..|fs| - 1];
    }
  }

  // Used cels

  function Cells(fs: seq<Frame>): seq<string>
  {
    seq(|fs|, k requires 0 <= k < |fs| => fs[k].cell)
  }

  /** The cels in order of first use, each once. */
  function UsedCels(cells: seq<string>): seq<string>
  {
    if cells == [] then []
    else
      var used := UsedCels(cells[..|cells| - 1]);
      if cells[|cells| - 1] in used then used else used + [cells[|cells| - 1]]
  }

  /** Where `c` first occurs in `cells`. */
  function FirstIndex(cells: seq<string>, c: string): (k: nat)
    requires c in cells
    ensures k < |cells| && cells[k] == c && forall j :: 0 <= j < k ==> cells[j] != c
  {
    if cells[0] == c then 0 else 1 + FirstIndex(cells[1..], c)
  }

  lemma FirstIndexPrefix(cells: seq<string>, c: string, n: nat)
    requires n <= |cells| && c in cells[..n]
    ensures FirstIndex(cells, c) == FirstIndex(cells[..n], c)
  {
    var k := FirstIndex(cells[..n], c);
    var m := FirstIndex(cells, c);
    assert cells[k] == c;
  }

  /** `get_used_cels` lists every cel of the frames exactly once, in order of first use. */
  lemma {:induction false} UsedCelsDedup(cells: seq<string>)
    ensures forall i, j :: 0 <= i < j < |UsedCels(cells)| ==> UsedCels(cells)[i] != UsedCels(cells)[j]
    ensures forall c :: c in UsedCels(cells) <==> c in cells
    ensures forall i, j :: 0 <= i < j < |UsedCels(cells)| ==>
              FirstIndex(cells, UsedCels(cells)[i]) < FirstIndex(cells, UsedCels(cells)[j])
  {
    if cells != [] {
      var n := |cells| - 1;
      var init := cells[..n];
      var used := UsedCels(init);
      UsedCelsDedup(init);
      assert cells == init + [cells[n]];
      forall i | 0 <= i < |used| ensures FirstIndex(cells, used[i]) == FirstIndex(init, used[i]) {
        FirstIndexPrefix(cells, used[i], n);
      }
      if cells[n] !in used {
        assert cells[n] !in init;
        assert FirstIndex(cells, cells[n]) == n;
      }
    }
  }

  // Text reader

  const FrameMarker := "{"

  /** The characters of `s` other than spaces. */
  function Unspaced(s: string): string
  {
    if s == [] then [] else (if s[0] == ' ' then [] else [s[0]]) + Unspaced(s[1..])
  }

  /** One of the character loops of `Animation::from_c`: from `i`, gather every character
      other than a space until `stop`, and give the index of `stop`. None when no `stop`
      follows: the loop then unwraps `chars().nth(i)` past the end and panics. */
  function ReadField(c: string, i: nat, stop: char): (r: Option<(string, nat)>)
    ensures r.Some? ==> i <= r.value.1 < |c| && c[r.value.1] == stop
    ensures r.Some? ==> (forall q :: i <= q < r.value.1 ==> c[q] != stop) &&
                        r.value.0 == Unspaced(c[i..r.value.1])
    ensures r.None? ==> forall q :: i <= q < |c| ==> c[q] != stop
    decreases |c| - i
  {
    if i >= |c| then None
    else if c[i] == stop then Some(([], i))
    else match ReadField(c, i + 1, stop)
      case None => None
      case Some(rest) =>
        assert c[i..rest.1][1..] == c[i + 1..rest.1];
        Some(((if c[i] == ' ' then [] else [c[i]]) + rest.0, rest.1))
  }

  /** From the `{` at `pos`: the cel name up to `,` and the duration up to `}`. */
  function FrameFields(c: string, pos: nat): Option<(string, string)>
  {
    match ReadField(c, pos + 1, ',')
    case None => None
    case Some(cel) =>
      match ReadField(c, cel.1 + 1, '}')
      case None => None
      case Some(dur) => Some((cel.0, dur.0))
  }

  /** How the frame loop of `Animation::from_c` ends: it panics, returns None on a
      duration that is not a `u8`, or yields the frames. */
  datatype TextRead = Panic | NotU8 | Parsed(frames: seq<Frame>)

  /** The frame loop over the `{` positions `ps`, numbering the frames in order. */
  function DecodeFrames(c: string, ps: seq<nat>): TextRead
  {
    if ps == [] then Parsed([])
    else match DecodeFrames(c, ps[..|ps| - 1])
      case Panic => Panic
      case NotU8 => NotU8
      case Parsed(fs) =>
        match FrameFields(c, ps[|ps| - 1])
        case None => Panic
        case Some(fields) =>
          match ParseU8(fields.1, 10)
          case None => NotU8
          case Some(d) => Parsed(fs + [Frame(fields.0, d, |fs|)])
  }

  /** `Animation::from_c` on the text between `[` and `;`: every `{` found with the
      cursor moving four characters past each, the first dropped (it opens the frame
      list), then one frame per remaining `{`. */
  function DecodeAnimationText(c: string): TextRead
  {
    if !ScanSafe(c, FrameMarker, 4, 0) then Panic
    else
      var all := Scan(c, FrameMarker, 4, 0);
      if all == [] then Panic else DecodeFrames(c, all[1..])
  }

  /** Once the loop stops, later positions change nothing. */
  lemma {:induction false} DecodeFramesStops(c: string, ps: seq<nat>, n: nat)
    requires n <= |ps| && !DecodeFrames(c, ps[..n]).Parsed?
    ensures DecodeFrames(c, ps) == DecodeFrames(c, ps[..n])
    decreases |ps|
  {
    if n < |ps| {
      var init := ps[..|ps| - 1];
      assert init[..n] == ps[..n];
      DecodeFramesStops(c, init, n);
    } else {
      assert ps[..n] == ps;
    }
  }

  /** One pass of the frame loop: unless the whole loop panics, the next frame is
      readable, and its duration either stops the loop with None or extends the frames. */
  lemma DecodeFramesNext(c: string, ps: seq<nat>, n: nat, fs: seq<Frame>)
    requires n < |ps| && DecodeFrames(c, ps[..n]) == Parsed(fs) && !DecodeFrames(c, ps).Panic?
    ensures FrameFields(c, ps[n]).Some?
    ensures var f := FrameFields(c, ps[n]).value;
            match ParseU8(f.1, 10)
            case None => DecodeFrames(c, ps) == NotU8
            case Some(d) =>
              DecodeFrames(c, ps[..n + 1]) == Parsed(fs + [Frame(f.0, d, |fs|)]) &&
              Total(fs + [Frame(f.0, d, |fs|)]) == Total(fs) + d
  {
    assert ps[..n + 1][..n] == ps[..n];
    if FrameFields(c, ps[n]).None? || ParseU8(FrameFields(c, ps[n]).value.1, 10).None? {
      DecodeFramesStops(c, ps, n + 1);
    } else {
      var f := Frame(FrameFields(c, ps[n]).value.0, ParseU8(FrameFields(c, ps[n]).value.1, 10).value, |fs|);
      assert (fs + [f])[..|fs|] == fs;
    }
  }

  /** The frames read have ids 0, 1, ... in order, each with the cel name and the parsed
      duration of its own `{`. */
  lemma DecodeFramesParsed(c: string, ps: seq<nat>)
    requires DecodeFrames(c, ps).Parsed?
    ensures var fs := DecodeFrames(c, ps).frames;
            |fs| == |ps| &&
            forall k :: 0 <= k < |ps| ==>
              FrameFields(c, ps[k]).Some? && fs[k].id == k && fs[k].cell == FrameFields(c, ps[k]).value.0 &&
              ParseU8(FrameFields(c, ps[k]).value.1, 10) == Some(fs[k].duration)
  {
    var fs := DecodeFrames(c, ps).frames;
    DecodeFramesValue(c, ps, fs);
    forall k | 0 <= k < |ps|
      ensures FrameFields(c, ps[k]).Some? && fs[k].id == k && fs[k].cell == FrameFields(c, ps[k]).value.0 &&
              ParseU8(FrameFields(c, ps[k]).value.1, 10) == Some(fs[k].duration)
    {
      assert FrameRead(c, ps[k], fs[k], k);
    }
  }

  /** Frame `f` is the `k`-th frame read from the `{` at `p`. */
  predicate FrameRead(c: string, p: nat, f: Frame, k: nat)
  {
    FrameFields(c, p).Some? && f.id == k && f.cell == FrameFields(c, p).value.0 &&
    ParseU8(FrameFields(c, p).value.1, 10) == Some(f.duration)
  }

  /** The last `{` of a loop that parsed adds one frame, numbered after the others. */
  lemma DecodeFramesLast(c: string, ps: seq<nat>, fs: seq<Frame>)
    requires ps != [] && DecodeFrames(c, ps) == Parsed(fs)
    ensures DecodeFrames(c, ps[..|ps| - 1]).Parsed?
    ensures var before := DecodeFrames(c, ps[..|ps| - 1]).frames;
            |fs| == |before| + 1 && fs[..|before|] == before && FrameRead(c, ps[|ps| - 1], fs[|before|], |before|)
  {
  }

  /** The frames of a loop that parsed, one per `{`, numbered in order. */
  lemma {:induction false} DecodeFramesValue(c: string, ps: seq<nat>, fs: seq<Frame>)
    requires DecodeFrames(c, ps) == Parsed(fs)
    ensures |fs| == |ps|
    ensures forall k :: 0 <= k < |ps| ==> FrameRead(c, ps[k], fs[k], k)
  {
    if ps != [] {
      var n := |ps| - 1;
      var init := ps[..n];
      DecodeFramesLast(c, ps, fs);
      var before := DecodeFrames(c, init).frames;
      DecodeFramesValue(c, init, before);
      FrameReadPrefix(c, ps, fs, before);
    }
  }

  /** The frames read before the last `{`, followed by the last one, are all read. */
  lemma FrameReadPrefix(c: string, ps: seq<nat>, fs: seq<Frame>, before: seq<Frame>)
    requires |ps| == |fs| == |before| + 1 && fs[..|before|] == before
    requires forall k :: 0 <= k < |before| ==> FrameRead(c, ps[..|before|][k], before[k], k)
    requires FrameRead(c, ps[|before|], fs[|before|], |before|)
    ensures forall k :: 0 <= k < |ps| ==> FrameRead(c, ps[k], fs[k], k)
  {
    forall k | 0 <= k < |before|
      ensures FrameRead(c, ps[k], fs[k], k)
    {
      assert ps[..|before|][k] == ps[k] && fs[..|before|][k] == fs[k];
    }
  }

  /** With every frame readable the loop does not panic, and it returns None exactly when
      some duration is not a `u8`. */
  lemma {:induction false} DecodeFramesReadable(c: string, ps: seq<nat>)
    requires forall k :: 0 <= k < |ps| ==> FrameFields(c, ps[k]).Some?
    ensures !DecodeFrames(c, ps).Panic?
    ensures DecodeFrames(c, ps).Parsed? <==>
              forall k :: 0 <= k < |ps| ==> ParseU8(FrameFields(c, ps[k]).value.1, 10).Some?
  {
    if ps != [] {
      var n := |ps| - 1;
      var init := ps[..n];
      assert forall k :: 0 <= k < n ==> init[k] == ps[k];
      DecodeFramesReadable(c, init);
      if DecodeFrames(c, ps).Parsed? {
        DecodeFramesParsed(c, ps);
      }
    }
  }

  // Binary reader

  /** The frame loop of `Animation::from_bin` from byte `i`, in the middle of cel name
      `cell`, the next frame numbered `id`: bytes up to a 0x00 are the cel name, the byte
      after it the duration. Trailing name bytes without a 0x00 are dropped. None where a
      0x00 is the last byte, since the duration is then read past the end. */
  function BinFrames(bin: seq<u8>, i: nat, cell: string, id: nat): (r: Option<seq<Frame>>)
    decreases |bin| - i
  {
    if i >= |bin| then Some([])
    else if bin[i] != 0x00 then BinFrames(bin, i + 1, cell + [bin[i] as char], id)
    else if i + 1 >= |bin| then None
    else match BinFrames(bin, i + 2, [], id + 1)
      case None => None
      case Some(rest) => Some([Frame(cell, bin[i + 1], id)] + rest)
  }

  /** Frames are numbered on from `id` in order. */
  lemma {:induction false} BinFramesIds(bin: seq<u8>, i: nat, cell: string, id: nat)
    requires BinFrames(bin, i, cell, id).Some?
    ensures forall k :: 0 <= k < |BinFrames(bin, i, cell, id).value| ==>
              BinFrames(bin, i, cell, id).value[k].id == id + k
    decreases |bin| - i
  {
    if i < |bin| {
      if bin[i] != 0x00 {
        BinFramesIds(bin, i + 1, cell + [bin[i] as char], id);
      } else {
        BinFramesIds(bin, i + 2, [], id + 1);
      }
    }
  }

  /** `Animation::from_bin` indexes past the end unless the name ends in 0x00 and no
      0x00 of the frame list is the last byte. */
  predicate FromBinSafe(bin: seq<u8>)
  {
    FirstZero(bin, 0).Some? && BinFrames(bin, FirstZero(bin, 0).value + 3, [], 0).Some?
  }

  /** The name and the frames `Animation::from_bin` reads. */
  function DecodeAnimationBin(bin: seq<u8>): (string, seq<Frame>)
    requires FromBinSafe(bin)
  {
    var z := FirstZero(bin, 0).value;
    (BytesToString(bin[..z]), BinFrames(bin, z + 3, [], 0).value)
  }

  /** The frames as `Animation::from_bin` reads them: each cel name, 0x00, the duration. */
  function FrameBytes(fs: seq<Frame>): seq<u8>
    requires forall k :: 0 <= k < |fs| ==> IsAscii(fs[k].cell)
  {
    if fs == [] then [] else StringToBytes(fs[0].cell) + [0x00, fs[0].duration] + FrameBytes(fs[1..])
  }

  /** An animation record as the project file holds it: the name, 0x00, a two-byte
      length that the reader skips, and the frames. */
  function AnimationBytes(name: string, lengthHigh: u8, lengthLow: u8, fs: seq<Frame>): seq<u8>
    requires IsAscii(name) && forall k :: 0 <= k < |fs| ==> IsAscii(fs[k].cell)
  {
    StringToBytes(name) + [0x00, lengthHigh, lengthLow] + FrameBytes(fs)
  }

  /** Reading the non-zero bytes of a cel name appends them to the name read so far. */
  lemma {:induction false} BinFramesName(bin: seq<u8>, i: nat, cell: string, id: nat, n: nat)
    requires i + n <= |bin| && forall q :: i <= q < i + n ==> bin[q] != 0x00
    ensures BinFrames(bin, i, cell, id) == BinFrames(bin, i + n, cell + BytesToString(bin[i..i + n]), id)
    decreases n
  {
    if n > 0 {
      BinFramesName(bin, i + 1, cell + [bin[i] as char], id, n - 1);
      assert [bin[i] as char] + BytesToString(bin[i + 1..i + n]) == BytesToString(bin[i..i + n]);
      assert cell + [bin[i] as char] + BytesToString(bin[i + 1..i + n]) == cell + BytesToString(bin[i..i + n]);
    } else {
      assert BytesToString(bin[i..i]) == [];
      assert cell + [] == cell;
    }
  }

  /** One frame record at `i`: a cel name, 0x00 and the duration, then the rest. */
  lemma BinFramesRecord(bin: seq<u8>, i: nat, name: string, d: u8, tail: seq<u8>, id: nat)
    requires IsAscii(name) && NoNul(name)
    requires i <= |bin| && bin[i..] == StringToBytes(name) + [0x00, d] + tail
    ensures bin[i + |name| + 2..] == tail
    ensures BinFrames(bin, i + |name| + 2, [], id + 1).Some? ==>
              BinFrames(bin, i, [], id) ==
                Some([Frame(name, d, id)] + BinFrames(bin, i + |name| + 2, [], id + 1).value)
  {
    var n := |name|;
    assert forall q :: i <= q < i + n ==> bin[q] == bin[i..][q - i];
    assert bin[i..i + n] == StringToBytes(name);
    assert bin[i + n] == 0x00 && bin[i + n + 1] == d;
    assert bin[i + n + 2..] == bin[i..][n + 2..];
    BinFramesName(bin, i, [], id, n);
    AsciiRoundTrip(name);
    assert [] + BytesToString(StringToBytes(name)) == name;
  }

  /** The frame list reads back with its cels and durations, numbered from `id`. */
  lemma {:induction false} FrameBytesRead(bin: seq<u8>, i: nat, fs: seq<Frame>, id: nat)
    requires forall k :: 0 <= k < |fs| ==> IsAscii(fs[k].cell) && NoNul(fs[k].cell)
    requires i <= |bin| && bin[i..] == FrameBytes(fs)
    ensures BinFrames(bin, i, [], id).Some?
    ensures |BinFrames(bin, i, [], id).value| == |fs|
    ensures forall k :: 0 <= k < |fs| ==>
              BinFrames(bin, i, [], id).value[k] == fs[k].(id := id + k)
    decreases |fs|
  {
    if fs == [] {
      assert |bin[i..]| == 0;
    } else {
      var next := i + |fs[0].cell| + 2;
      BinFramesRecord(bin, i, fs[0].cell, fs[0].duration, FrameBytes(fs[1..]), id);
      FrameBytesRead(bin, next, fs[1..], id + 1);
      var rest := BinFrames(bin, next, [], id + 1).value;
      var r := BinFrames(bin, i, [], id).value;
      forall k | 0 <= k < |fs| ensures r[k] == fs[k].(id := id + k) {
        if k > 0 {
          assert r[k] == rest[k - 1];
          assert fs[1..][k - 1] == fs[k];
        }
      }
    }
  }

  /** Round trip: a record written as name, 0x00, two length bytes and the frames reads
      back as that name and those frames, numbered 0, 1, ... */
  lemma AnimationBytesRoundTrip(name: string, lengthHigh: u8, lengthLow: u8, fs: seq<Frame>)
    requires IsAscii(name) && NoNul(name)
    requires forall k :: 0 <= k < |fs| ==> IsAscii(fs[k].cell) && NoNul(fs[k].cell)
    ensures var bin := AnimationBytes(name, lengthHigh, lengthLow, fs);
            FromBinSafe(bin) && FirstZero(bin, 0) == Some(|name|) &&
            BytesToString(bin[..|name|]) == name &&
            |BinFrames(bin, |name| + 3, [], 0).value| == |fs| &&
            forall k :: 0 <= k < |fs| ==> BinFrames(bin, |name| + 3, [], 0).value[k] == fs[k].(id := k)
  {
    var bin := AnimationBytes(name, lengthHigh, lengthLow, fs);
    var z := |name|;
    assert forall j :: 0 <= j < z ==> bin[j] == name[j] as int;
    assert bin[z] == 0x00;
    FirstZeroAt(bin, 0, z);
    assert bin[..z] == StringToBytes(name);
    AsciiRoundTrip(name);
    assert bin[z + 3..] == FrameBytes(fs);
    FrameBytesRead(bin, z + 3, fs, 0);
  }

  /** An animation as the editor holds it. `current_frame` is never changed here. */
  class Animation {
    var frames: seq<Frame>
    var name: string
    var currentFrame: nat
    var duration: nat

    constructor (frames: seq<Frame>, name: string, currentFrame: nat, duration: nat)
      ensures this.frames == frames && this.name == name
      ensures this.currentFrame == currentFrame && this.duration == duration
    {
      this.frames := frames;
      this.name := name;
      this.currentFrame := currentFrame;
      this.duration := duration;
    }

    /** `Animation::from_c`: None on a duration that is not a `u8`; otherwise frames
        numbered in order, lasting `duration` ticks together, at frame 0. */
    static method FromC(c: string, name: string) returns (a: Animation?)
      requires !DecodeAnimationText(c).Panic?
      ensures a == null <==> DecodeAnimationText(c).NotU8?
      ensures a != null ==> fresh(a) && a.frames == DecodeAnimationText(c).frames && a.name == name &&
                            a.currentFrame == 0 && a.duration == Total(a.frames)
    {
      var framePositions := ScanPositions(c, FrameMarker, 4, 0, 0);
      assert framePositions == Scan(c, FrameMarker, 4, 0);
      // `frame_positions.remove(0)`
      framePositions := framePositions[1..];
      var read, totalDuration := ReadFrames(c, framePositions);
      if read.NotU8? {
        return null;
      }
      a := new Animation(read.frames, name, 0, totalDuration);
    }

    /** The frame loop of `Animation::from_c` over the `{` positions: the frames and their
        total duration, or `NotU8` where the loop returns None. */
    static method ReadFrames(c: string, framePositions: seq<nat>) returns (read: TextRead, totalDuration: nat)
      requires !DecodeFrames(c, framePositions).Panic?
      ensures read == DecodeFrames(c, framePositions)
      ensures read.Parsed? ==> totalDuration == Total(read.frames)
    {
      var frames: seq<Frame> := [];
      totalDuration := 0;
      for n := 0 to |framePositions|
        invariant DecodeFrames(c, framePositions[..n]) == Parsed(frames)
        invariant totalDuration == Total(frames)
      {
        var pos := framePositions[n];
        DecodeFramesNext(c, framePositions, n, frames);
        var celName, durationStr := ReadFrameFields(c, pos);
        var parsed := ParseU8(durationStr, 10);
        if parsed.None? {
          return NotU8, totalDuration;
        }
        frames := frames + [Frame(celName, parsed.value, |frames|)];
        totalDuration := totalDuration + parsed.value;
      }
      assert framePositions[..|framePositions|] == framePositions;
      read := Parsed(frames);
    }

    /** The two character loops of one frame: the cel name after the `{` at `pos` up to
        `,`, then the duration text up to `}`. */
    static method ReadFrameFields(c: string, pos: nat) returns (celName: string, durationStr: string)
      requires FrameFields(c, pos).Some?
      ensures FrameFields(c, pos) == Some((celName, durationStr))
    {
      var i, end;
      celName, i := ReadUntil(c, pos + 1, ',');
      durationStr, end := ReadUntil(c, i + 1, '}');
    }

    /** One character loop: from `from`, gather the characters other than spaces until
        `stop`, and give the index of the `stop`. */
    static method ReadUntil(c: string, from: nat, stop: char) returns (text: string, end: nat)
      requires ReadField(c, from, stop).Some?
      ensures ReadField(c, from, stop) == Some((text, end))
    {
      text := "";
      var i := from;
      assert text + ReadField(c, i, stop).value.0 == ReadField(c, i, stop).value.0;
      while c[i] != stop
        invariant ReadField(c, i, stop).Some?
        invariant ReadField(c, from, stop).value ==
                    (text + ReadField(c, i, stop).value.0, ReadField(c, i, stop).value.1)
        decreases |c| - i
      {
        var rest := ReadField(c, i + 1, stop).value;
        if c[i] != ' ' {
          AppendShift(text, c[i], rest.0);
          text := text + [c[i]];
        } else {
          assert [] + rest.0 == rest.0;
        }
        i := i + 1;
      }
      assert text + [] == text;
      end := i;
    }

    /** `Animation::from_bin`: the name up to the first 0x00, two skipped length bytes,
        then the frames, numbered in order and lasting `duration` ticks together. The
        code always returns `Some`. */
    static method FromBin(bin: seq<u8>) returns (a: Animation)
      requires FromBinSafe(bin)
      ensures fresh(a)
      ensures (a.name, a.frames) == DecodeAnimationBin(bin)
      ensures a.currentFrame == 0 && a.duration == Total(a.frames)
    {
      var name, i := ReadName(bin);
      // skip over the 0x00 and the animation length
      i := i + 3;
      ghost var all := BinFrames(bin, i, [], 0).value;
      var frames: seq<Frame> := [];
      var cell: string := "";
      var frameId := 0;
      var duration: nat := 0;
      while i < |bin|
        invariant BinFrames(bin, i, cell, frameId).Some?
        invariant all == frames + BinFrames(bin, i, cell, frameId).value
        invariant frameId == |frames| && duration == Total(frames)
        decreases |bin| - i
      {
        if bin[i] != 0x00 {
          cell := cell + [bin[i] as char];
        } else {
          // go to the duration byte
          i := i + 1;
          var frame := Frame(cell, bin[i], frameId);
          AppendShift(frames, frame, BinFrames(bin, i + 1, [], frameId + 1).value);
          assert (frames + [frame])[..|frames|] == frames;
          frames := frames + [frame];
          duration := duration + bin[i];
          frameId := frameId + 1;
          cell := "";
        }
        i := i + 1;
      }
      assert frames + [] == frames;
      a := new Animation(frames, name, 0, duration);
    }

    /** `get_total_frames`: the ticks all frames last together. */
    method GetTotalFrames() returns (result: nat)
      ensures result == Total(frames)
    {
      result := 0;
      for k := 0 to |frames|
        invariant result == Total(frames[..k])
      {
        TotalStep(frames, k);
        result := result + frames[k].duration;
      }
      assert frames[..|frames|] == frames;
    }

    /** `get_anim_frame_from_frames`: the frame shown at tick `k`. */
    method GetAnimFrameFromFrames(k: nat) returns (result: nat)
      requires FrameAtTick(frames, k).Some?
      ensures result == FrameAtTick(frames, k).value
    {
      var total := GetTotalFrames();
      if k > total {
        return 0;
      }
      if |frames| == 0 {
        return 0;
      }
      result := 0;
      var i := 0;
      var currentFrame := frames[0];
      for t := 0 to k
        invariant Playback(frames, t) == Some((result, i))
        invariant result < |frames| && currentFrame == frames[result]
      {
        PlaybackDefined(frames, t + 1, k);
        if i == currentFrame.duration {
          i := 0;
          result := result + 1;
          currentFrame := frames[result];
        }
        i := i + 1;
      }
    }

    /** `move_anim_frame`: true (`Some(())`) when a frame moved. */
    method MoveAnimFrame(frameId: nat, offset: int) returns (moved: bool)
      modifies this
      ensures moved <==> MoveFrames(old(frames), old(duration), frameId, offset).Some?
      ensures frames == if moved then MoveFrames(old(frames), old(duration), frameId, offset).value else old(frames)
      ensures name == old(name) && currentFrame == old(currentFrame) && duration == old(duration)
    {
      if frameId == 0 {
        return false;
      }
      if offset == 0 {
        return false;
      }
      var positionedFrames := ToPositioned(frames);
      // `iter_mut().find(|k| k.id == frame_id)`
      var j := 0;
      while j < |positionedFrames| && positionedFrames[j].id != frameId
        invariant j <= |positionedFrames| == |frames|
        invariant forall q :: 0 <= q < j ==> frames[q].id != frameId
      {
        j := j + 1;
      }
      if j == |positionedFrames| {
        assert IndexOfId(frames, frameId).None?;
        return false;
      }
      assert IndexOfId(frames, frameId) == Some(j);
      positionedFrames := positionedFrames[j := positionedFrames[j].(position := positionedFrames[j].position + offset)];
      assert positionedFrames == Moved(frames, j, offset);
      frames := ToDurations(positionedFrames, duration);
      moved := true;
    }

    /** `insert_anim_frame`. */
    method InsertAnimFrame(cell: string, position: int)
      modifies this
      ensures frames == InsertFrames(old(frames), old(duration), cell, position)
      ensures name == old(name) && currentFrame == old(currentFrame) && duration == old(duration)
    {
      var positionedFrames := ToPositioned(frames);
      positionedFrames := positionedFrames + [Positioned(cell, position, |positionedFrames| + 1)];
      frames := ToDurations(positionedFrames, duration);
    }

    /** `remove_anim_frame`. */
    method RemoveAnimFrame(frameId: nat)
      requires RemoveSafe(frames, frameId)
      modifies this
      ensures frames == RemoveFrames(old(frames), frameId)
      ensures name == old(name) && currentFrame == old(currentFrame) && duration == old(duration)
    {
      if frameId == 0 {
        return;
      }
      var index := 0;
      while index < |frames| && frames[index].id != frameId
        invariant index <= |frames| && forall q :: 0 <= q < index ==> frames[q].id != frameId
      {
        index := index + 1;
      }
      if index == |frames| {
        return;
      }
      assert IndexOfId(frames, frameId) == Some(index);
      var removed := frames[index].duration;
      frames := frames[..index] + frames[index + 1..];
      frames := frames[index - 1 := frames[index - 1].(duration := frames[index - 1].duration + removed)];
    }

    /** `get_minimum_duration`: where the last frame starts. */
    method GetMinimumDuration() returns (result: nat)
      ensures result == MinimumDuration(frames)
    {
      var positionedFrames := ToPositioned(frames);
      if |positionedFrames| == 0 {
        return 0;
      }
      result := positionedFrames[|positionedFrames| - 1].position;
    }

    /** `update_duration`. */
    method UpdateDuration()
      requires frames == [] || duration >= MinimumDuration(frames)
      modifies this
      ensures frames == UpdateLast(old(frames), old(duration))
      ensures name == old(name) && currentFrame == old(currentFrame) && duration == old(duration)
    {
      var minimumDuration := GetMinimumDuration();
      if |frames| > 0 {
        var last := frames[|frames| - 1];
        frames := frames[|frames| - 1 := last.(duration := WrapU8(duration - minimumDuration))];
      }
    }

    /** `get_used_cels`. */
    method GetUsedCels() returns (usedCels: seq<string>)
      ensures usedCels == UsedCels(Cells(frames))
    {
      usedCels := [];
      for k := 0 to |frames|
        invariant usedCels == UsedCels(Cells(frames)[..k])
      {
        assert Cells(frames)[..k + 1][..k] == Cells(frames)[..k];
        if frames[k].cell !in usedCels {
          usedCels := usedCels + [frames[k].cell];
        }
      }
      assert Cells(frames)[..|frames|] == Cells(frames);
    }
  }

  /** A playback that does not panic after `k` passes did not panic before. */
  lemma {:induction false} PlaybackDefined(fs: seq<Frame>, t: nat, k: nat)
    requires t <= k && Playback(fs, k).Some?
    ensures Playback(fs, t).Some?
    decreases k - t
  {
    if t < k {
      PlaybackDefined(fs, t + 1, k);
    }
  }
}
