/** The two forms of an animation's frame list: duration form (each frame lasts a number
    of ticks) and position form (each frame starts at a tick), and the conversions
    between them. */
module Frames {
  import opened Common

  /** `AnimationFrame`: a cel shown for `duration` ticks. */
  datatype Frame = Frame(cell: string, duration: u8, id: nat)

  /** `PositionedAnimationFrame`: a cel that starts at tick `position`. */
  datatype Positioned = Positioned(cell: string, position: int, id: nat)

  /** The number of ticks the frames last together (`usize` arithmetic, no overflow). */
  function Total(fs: seq<Frame>): nat
  {
    if fs == [] then 0 else Total(fs[..|fs| - 1]) + fs[|fs| - 1].duration
  }

  lemma {:induction false} TotalAppend(a: seq<Frame>, b: seq<Frame>)
    ensures Total(a + b) == Total(a) + Total(b)
    decreases |b|
  {
    if b == [] {
      assert a + b == a;
    } else {
      assert (a + b)[..|a + b| - 1] == a + b[..|b| - 1];
      TotalAppend(a, b[..|b| - 1]);
    }
  }

  /** Adding a frame's own duration to the ticks before it reaches the ticks before the next. */
  lemma TotalStep(fs: seq<Frame>, k: nat)
    requires k < |fs|
    ensures Total(fs[..k + 1]) == Total(fs[..k]) + fs[k].duration
  {
    assert fs[..k + 1][..k] == fs[..k];
  }

  /** The ticks before frame `k` never exceed the ticks before a later frame. */
  lemma {:induction false} TotalMonotone(fs: seq<Frame>, j: nat, k: nat)
    requires j <= k <= |fs|
    ensures Total(fs[..j]) <= Total(fs[..k])
    decreases k - j
  {
    if j < k {
      TotalMonotone(fs, j, k - 1);
      TotalStep(fs, k - 1);
    }
  }

  /** The position form of duration-form frames: same cels and ids, each starting where
      the frames before it end. */
  function PositionsOf(fs: seq<Frame>): seq<Positioned>
  {
    seq(|fs|, k requires 0 <= k < |fs| => Positioned(fs[k].cell, Total(fs[..k]), fs[k].id))
  }

  /** Positions computed from durations never decrease. */
  lemma PositionsSorted(fs: seq<Frame>)
    ensures SortedByPosition(PositionsOf(fs))
  {
    var ps := PositionsOf(fs);
    forall i, j | 0 <= i < j < |ps| ensures ps[i].position <= ps[j].position {
      TotalMonotone(fs, i, j);
    }
  }

  predicate SortedByPosition(ps: seq<Positioned>)
  {
    forall i, j :: 0 <= i < j < |ps| ==> ps[i].position <= ps[j].position
  }

  /** Puts `x` into sorted `s` after every element whose position is not greater. */
  function InsertByPosition(x: Positioned, s: seq<Positioned>): seq<Positioned>
  {
    if s == [] || s[|s| - 1].position <= x.position then s + [x]
    else InsertByPosition(x, s[..|s| - 1]) + [s[|s| - 1]]
  }

  /** Rust's stable `sort_by` on position: an insertion sort, each element going after
      the equal ones already placed. */
  function SortByPosition(ps: seq<Positioned>): seq<Positioned>
  {
    if ps == [] then [] else InsertByPosition(ps[|ps| - 1], SortByPosition(ps[..|ps| - 1]))
  }

  /** How many elements of sorted `s` go before `x`. */
  function InsertIndex(x: Positioned, s: seq<Positioned>): nat
  {
    if s == [] || s[|s| - 1].position <= x.position then |s|
    else InsertIndex(x, s[..|s| - 1])
  }

  /** Insertion places `x` in front of the elements after it at the end of `s`. */
  lemma {:induction false} InsertSplit(x: Positioned, s: seq<Positioned>)
    ensures InsertIndex(x, s) <= |s|
    ensures InsertByPosition(x, s) == s[..InsertIndex(x, s)] + [x] + s[InsertIndex(x, s)..]
    ensures forall i :: InsertIndex(x, s) <= i < |s| ==> s[i].position > x.position
  {
    if s == [] || s[|s| - 1].position <= x.position {
      assert s[..|s|] == s && s[|s|..] == [];
    } else {
      var init := s[..|s| - 1];
      InsertSplit(x, init);
      var m := InsertIndex(x, init);
      assert init[..m] == s[..m];
      assert init[m..] + [s[|s| - 1]] == s[m..];
    }
  }

  /** In sorted `s`, everything in front of `x` is not after it. */
  lemma {:induction false} InsertBefore(x: Positioned, s: seq<Positioned>)
    requires SortedByPosition(s)
    ensures InsertIndex(x, s) <= |s|
    ensures forall i :: 0 <= i < InsertIndex(x, s) ==> s[i].position <= x.position
  {
    if s != [] && s[|s| - 1].position > x.position {
      InsertBefore(x, s[..|s| - 1]);
    }
  }

  /** Element `i` of the insertion: from `s` in front of `x`, then `x`, then the rest of
      `s` one place further on. */
  lemma InsertAt(x: Positioned, s: seq<Positioned>)
    ensures InsertIndex(x, s) <= |s| && |InsertByPosition(x, s)| == |s| + 1
    ensures forall i :: 0 <= i < InsertIndex(x, s) ==> InsertByPosition(x, s)[i] == s[i]
    ensures InsertByPosition(x, s)[InsertIndex(x, s)] == x
    ensures forall i :: InsertIndex(x, s) < i <= |s| ==> InsertByPosition(x, s)[i] == s[i - 1]
  {
    InsertSplit(x, s);
  }

  lemma InsertSorted(x: Positioned, s: seq<Positioned>)
    requires SortedByPosition(s)
    ensures SortedByPosition(InsertByPosition(x, s))
    ensures multiset(InsertByPosition(x, s)) == multiset(s) + multiset{x}
  {
    InsertKeepsOrder(x, s);
    InsertKeepsElements(x, s);
  }

  lemma InsertKeepsOrder(x: Positioned, s: seq<Positioned>)
    requires SortedByPosition(s)
    ensures SortedByPosition(InsertByPosition(x, s))
  {
    InsertAt(x, s);
    InsertBefore(x, s);
    InsertSplit(x, s);
    var m := InsertIndex(x, s);
    var r := InsertByPosition(x, s);
    forall i, j | 0 <= i < j < |r| ensures r[i].position <= r[j].position {
      if j < m {
        assert r[i] == s[i] && r[j] == s[j];
      } else if i > m {
        assert r[i] == s[i - 1] && r[j] == s[j - 1];
      } else if i == m {
        assert r[j] == s[j - 1];
      } else if j == m {
        assert r[i] == s[i];
      } else {
        assert r[i] == s[i] && r[j] == s[j - 1];
      }
    }
  }

  lemma InsertKeepsElements(x: Positioned, s: seq<Positioned>)
    ensures multiset(InsertByPosition(x, s)) == multiset(s) + multiset{x}
  {
    InsertSplit(x, s);
    var m := InsertIndex(x, s);
    MultisetMiddle(s[..m], x, s[m..]);
    SplitAt(s, m);
  }

  lemma MultisetMiddle<T>(a: seq<T>, x: T, b: seq<T>)
    ensures multiset(a + [x] + b) == multiset(a + b) + multiset{x}
  {
    assert a + [x] + b == a + ([x] + b);
  }

  /** The sort yields position order and keeps every element. */
  lemma {:induction false} SortSortedPermutes(ps: seq<Positioned>)
    ensures SortedByPosition(SortByPosition(ps))
    ensures multiset(SortByPosition(ps)) == multiset(ps)
    ensures |SortByPosition(ps)| == |ps|
  {
    if ps != [] {
      var init := ps[..|ps| - 1];
      var x := ps[|ps| - 1];
      SortSortedPermutes(init);
      InsertSorted(x, SortByPosition(init));
      assert ps == init + [x];
      assert multiset(ps) == multiset(init) + multiset{x};
      InsertAt(x, SortByPosition(init));
    }
  }

  /** A prefix of sorted frames is sorted. */
  lemma SortedPrefix(ps: seq<Positioned>, n: nat)
    requires SortedByPosition(ps) && n <= |ps|
    ensures SortedByPosition(ps[..n])
  {
    var init := ps[..n];
    forall i, j | 0 <= i < j < n ensures init[i].position <= init[j].position {
      assert init[i] == ps[i] && init[j] == ps[j];
    }
  }

  /** Already sorted frames come back unchanged. */
  lemma {:induction false} SortSortedIdentity(ps: seq<Positioned>)
    requires SortedByPosition(ps)
    ensures SortByPosition(ps) == ps
  {
    if ps != [] {
      var n := |ps| - 1;
      var init := ps[..n];
      var x := ps[n];
      SortedPrefix(ps, n);
      SortSortedIdentity(init);
      if n > 0 {
        assert init[n - 1] == ps[n - 1];
        assert ps[n - 1].position <= ps[n].position;
      }
      assert InsertByPosition(x, init) == init + [x];
      assert init + [x] == ps;
    }
  }

  /** The elements at position `p`, in order. */
  function AtPosition(ps: seq<Positioned>, p: int): seq<Positioned>
  {
    if ps == [] then []
    else AtPosition(ps[..|ps| - 1], p) + (if ps[|ps| - 1].position == p then [ps[|ps| - 1]] else [])
  }

  lemma {:induction false} AtPositionAppend(a: seq<Positioned>, b: seq<Positioned>, p: int)
    ensures AtPosition(a + b, p) == AtPosition(a, p) + AtPosition(b, p)
    decreases |b|
  {
    if b == [] {
      assert a + b == a;
    } else {
      assert (a + b)[..|a + b| - 1] == a + b[..|b| - 1];
      AtPositionAppend(a, b[..|b| - 1], p);
    }
  }

  /** Frames none of which is at `p` contribute nothing at `p`. */
  lemma {:induction false} AtPositionNone(s: seq<Positioned>, p: int)
    requires forall i :: 0 <= i < |s| ==> s[i].position != p
    ensures AtPosition(s, p) == []
  {
    if s != [] {
      AtPositionNone(s[..|s| - 1], p);
    }
  }

  lemma AtPositionSingle(x: Positioned, p: int)
    ensures AtPosition([x], p) == if x.position == p then [x] else []
  {
    assert [x][..0] == [];
  }

  /** Inserting `x` adds it behind the elements already at its position. */
  lemma AtPositionInsert(x: Positioned, s: seq<Positioned>, p: int)
    ensures AtPosition(InsertByPosition(x, s), p) == AtPosition(s, p) + AtPosition([x], p)
  {
    InsertSplit(x, s);
    var m := InsertIndex(x, s);
    var a, b := s[..m], s[m..];
    assert s == a + b;
    var r := InsertByPosition(x, s);
    assert r == (a + [x]) + b;
    AtPositionSplit(x, a, b, p);
  }

  lemma AtPositionSplit(x: Positioned, a: seq<Positioned>, b: seq<Positioned>, p: int)
    requires forall i :: 0 <= i < |b| ==> b[i].position > x.position
    ensures AtPosition((a + [x]) + b, p) == AtPosition(a + b, p) + AtPosition([x], p)
  {
    AtPositionAppend(a, b, p);
    AtPositionAppend(a + [x], b, p);
    AtPositionAppend(a, [x], p);
    if x.position == p {
      AtPositionNone(b, p);
      SwapEmpty(AtPosition(a, p), AtPosition([x], p), AtPosition(b, p));
    } else {
      AtPositionSingle(x, p);
      SwapEmpty(AtPosition(a, p), AtPosition([x], p), AtPosition(b, p));
    }
  }

  lemma SwapEmpty<T>(a: seq<T>, x: seq<T>, b: seq<T>)
    requires x == [] || b == []
    ensures (a + x) + b == (a + b) + x
  {
  }

  /** Stability: among the frames that share a position, the sort keeps their order. */
  lemma {:induction false} SortStable(ps: seq<Positioned>, p: int)
    ensures AtPosition(SortByPosition(ps), p) == AtPosition(ps, p)
  {
    if ps != [] {
      var init := ps[..|ps| - 1];
      var x := ps[|ps| - 1];
      SortStable(init, p);
      AtPositionInsert(x, SortByPosition(init), p);
      assert ps == init + [x];
      AtPositionAppend(init, [x], p);
    }
  }

  /** Where the frame after `i` starts: the next frame's position, or the animation's
      declared duration after the last frame. */
  function NextStart(sorted: seq<Positioned>, i: nat, duration: int): int
    requires i < |sorted|
  {
    if i == |sorted| - 1 then duration else sorted[i + 1].position
  }

  /** The duration form of already sorted frames: each lasts until the next starts, the
      difference cast to `u8`. */
  function Gaps(sorted: seq<Positioned>, duration: int): seq<Frame>
  {
    seq(|sorted|, i requires 0 <= i < |sorted| =>
      Frame(sorted[i].cell, WrapU8(NextStart(sorted, i, duration) - sorted[i].position), sorted[i].id))
  }

  /** Frame `i` of the gaps: its cel and id, lasting until the next start. */
  lemma GapAt(sorted: seq<Positioned>, duration: int, i: nat)
    requires i < |sorted|
    ensures |Gaps(sorted, duration)| == |sorted|
    ensures Gaps(sorted, duration)[i] ==
              Frame(sorted[i].cell, WrapU8(NextStart(sorted, i, duration) - sorted[i].position), sorted[i].id)
  {
  }

  /** `convert_positioned_frames_to_duration`: sort stably, then take the gaps. */
  function DurationsOf(ps: seq<Positioned>, duration: int): seq<Frame>
  {
    Gaps(SortByPosition(ps), duration)
  }

  /** Cel and id of every frame, whatever form it is in. */
  function Labels(fs: seq<Frame>): seq<(string, nat)>
  {
    seq(|fs|, k requires 0 <= k < |fs| => (fs[k].cell, fs[k].id))
  }

  function PositionedLabels(ps: seq<Positioned>): seq<(string, nat)>
  {
    seq(|ps|, k requires 0 <= k < |ps| => (ps[k].cell, ps[k].id))
  }

  lemma PositionedLabelsAppend(a: seq<Positioned>, b: seq<Positioned>)
    ensures PositionedLabels(a + b) == PositionedLabels(a) + PositionedLabels(b)
  {
  }

  /** Inserting a frame adds its cel and id to the multiset of the others. */
  lemma InsertKeepsLabels(x: Positioned, s: seq<Positioned>)
    ensures multiset(PositionedLabels(InsertByPosition(x, s))) ==
              multiset(PositionedLabels(s)) + multiset{(x.cell, x.id)}
  {
    InsertSplit(x, s);
    var m := InsertIndex(x, s);
    var a, b := s[..m], s[m..];
    assert s == a + b;
    assert InsertByPosition(x, s) == (a + [x]) + b;
    PositionedLabelsAppend(a + [x], b);
    PositionedLabelsAppend(a, [x]);
    PositionedLabelsAppend(a, b);
    assert PositionedLabels([x]) == [(x.cell, x.id)];
  }

  /** Sorting keeps the multiset of cels and ids. */
  lemma {:induction false} SortKeepsLabels(ps: seq<Positioned>)
    ensures multiset(PositionedLabels(SortByPosition(ps))) == multiset(PositionedLabels(ps))
  {
    if ps != [] {
      var init := ps[..|ps| - 1];
      var x := ps[|ps| - 1];
      SortKeepsLabels(init);
      InsertKeepsLabels(x, SortByPosition(init));
      assert ps == init + [x];
      PositionedLabelsAppend(init, [x]);
      assert PositionedLabels([x]) == [(x.cell, x.id)];
    }
  }

  /** Converting back to durations keeps the length and the cels and ids, although it puts
      them in position order. */
  lemma DurationsOfLabels(ps: seq<Positioned>, duration: int)
    ensures |DurationsOf(ps, duration)| == |ps|
    ensures multiset(Labels(DurationsOf(ps, duration))) == multiset(PositionedLabels(ps))
  {
    SortSortedPermutes(ps);
    var s := SortByPosition(ps);
    assert Labels(DurationsOf(ps, duration)) == PositionedLabels(s);
    SortKeepsLabels(ps);
  }

  /** Round trip: durations to positions and back, with the total as the declared
      duration, gives the same frames. */
  lemma DurationsOfPositions(fs: seq<Frame>)
    ensures DurationsOf(PositionsOf(fs), Total(fs)) == fs
  {
    var ps := PositionsOf(fs);
    PositionsSorted(fs);
    SortSortedIdentity(ps);
    var r := Gaps(ps, Total(fs));
    forall i | 0 <= i < |fs| ensures r[i] == fs[i] {
      GapOfPositions(fs, i);
    }
    SameElements(r, fs);
  }

  /** The gap after frame `i` of the position form is frame `i`'s own duration. */
  lemma GapOfPositions(fs: seq<Frame>, i: nat)
    requires i < |fs|
    ensures Gaps(PositionsOf(fs), Total(fs))[i] == fs[i]
  {
    var ps := PositionsOf(fs);
    TotalStep(fs, i);
    if i == |fs| - 1 {
      assert fs[..i + 1] == fs;
    }
    var gap := NextStart(ps, i, Total(fs)) - ps[i].position;
    assert gap == fs[i].duration;
    WrapU8Small(gap);
    GapAt(ps, Total(fs), i);
  }

  /** Sorted position-form frames that start at tick 0, with every gap and the tail up to
      `duration` representable as a `u8`. */
  predicate WellSpaced(sorted: seq<Positioned>, duration: int)
  {
    (sorted != [] ==> sorted[0].position == 0) &&
    forall i :: 0 <= i < |sorted| ==> 0 <= NextStart(sorted, i, duration) - sorted[i].position < 256
  }

  /** The other round trip: well-spaced positions to durations and back give the sorted
      positions, and the durations add up to the declared duration. */
  lemma PositionsOfDurations(ps: seq<Positioned>, duration: int)
    requires WellSpaced(SortByPosition(ps), duration)
    ensures PositionsOf(DurationsOf(ps, duration)) == SortByPosition(ps)
    ensures ps != [] ==> Total(DurationsOf(ps, duration)) == duration
  {
    SortSortedPermutes(ps);
    var s := SortByPosition(ps);
    var fs := Gaps(s, duration);
    var back := PositionsOf(fs);
    forall k | 0 <= k < |s| ensures back[k] == s[k] {
      GapsPrefix(s, duration, k);
    }
    SameElements(back, s);
    if ps != [] {
      GapsTotal(s, duration);
    }
  }

  /** The gaps of well-spaced frames add up to the declared duration. */
  lemma GapsTotal(s: seq<Positioned>, duration: int)
    requires s != [] && WellSpaced(s, duration)
    ensures Total(Gaps(s, duration)) == duration
  {
    var fs := Gaps(s, duration);
    var n := |s| - 1;
    GapsPrefix(s, duration, n);
    TotalStep(fs, n);
    assert fs[..n + 1] == fs;
    WrapU8Small(duration - s[n].position);
    assert fs[n].duration == duration - s[n].position;
  }

  /** The first `k` gaps add up to the position of frame `k`. */
  lemma {:induction false} GapsPrefix(s: seq<Positioned>, duration: int, k: nat)
    requires WellSpaced(s, duration) && k < |s|
    ensures Total(Gaps(s, duration)[..k]) == s[k].position
    decreases k
  {
    var fs := Gaps(s, duration);
    if k == 0 {
      assert fs[..0] == [];
    } else {
      GapsPrefix(s, duration, k - 1);
      TotalStep(fs, k - 1);
      WrapU8Small(s[k].position - s[k - 1].position);
      assert fs[k - 1].duration == s[k].position - s[k - 1].position;
    }
  }

  /** `convert_duration_frames_to_positioned`. */
  method ToPositioned(frames: seq<Frame>) returns (positionedFrames: seq<Positioned>)
    ensures positionedFrames == PositionsOf(frames)
  {
    positionedFrames := [];
    var totalDuration: int := 0;
    for k := 0 to |frames|
      invariant totalDuration == Total(frames[..k])
      invariant positionedFrames == PositionsOf(frames[..k])
    {
      TotalStep(frames, k);
      positionedFrames := positionedFrames + [Positioned(frames[k].cell, totalDuration, frames[k].id)];
      totalDuration := totalDuration + frames[k].duration;
      assert forall j :: 0 <= j < k ==> frames[..k + 1][..j] == frames[..k][..j];
    }
    assert frames[..|frames|] == frames;
  }

  /** `convert_positioned_frames_to_duration`. */
  method ToDurations(frames: seq<Positioned>, duration: nat) returns (durationFrames: seq<Frame>)
    ensures durationFrames == DurationsOf(frames, duration)
  {
    // `frames.sort_by(|a, b| a.position.cmp(&b.position))`
    var sorted := SortByPosition(frames);
    durationFrames := [];
    if |sorted| == 0 {
      return;
    }
    for i := 0 to |sorted|
      invariant durationFrames == Gaps(sorted, duration)[..i]
    {
      var nextFramePos := if i == |sorted| - 1 then duration else sorted[i + 1].position;
      durationFrames := durationFrames +
        [Frame(sorted[i].cell, WrapU8(nextFramePos - sorted[i].position), sorted[i].id)];
    }
  }
}
