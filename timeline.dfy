/** The keyframe table of the timeline panel and the selection, drag and delete rules of
    its input handler. Rectangles are opaque: whether the mouse lies in one is given as
    a function `contains`. */
module Timeline {
  import opened Common
  import opened Frames
  import Animations

  /** One keyframe button: where it was drawn, its flags and the frame it stands for. */
  datatype Keyframe<Rect> = Keyframe(inputRect: Rect, selected: bool, hovered: bool, id: nat)

  /** What `iter().find(|k| k.id == frame_id)` stops at: the first keyframe with the id. */
  function FindKeyframe<Rect>(ks: seq<Keyframe<Rect>>, id: nat): (r: Option<nat>)
    ensures r.Some? ==> r.value < |ks| && ks[r.value].id == id && forall j :: 0 <= j < r.value ==> ks[j].id != id
    ensures r.None? ==> forall j :: 0 <= j < |ks| ==> ks[j].id != id
  {
    if ks == [] then None
    else if ks[0].id == id then Some(0)
    else match FindKeyframe(ks[1..], id)
      case None => None
      case Some(j) => Some(j + 1)
  }

  /** No two keyframes stand for the same frame. */
  predicate UniqueIds<Rect>(ks: seq<Keyframe<Rect>>)
  {
    forall i, j :: 0 <= i < j < |ks| ==> ks[i].id != ks[j].id
  }

  /** `update_keyframe`: a known id gets the new rectangle; an unknown one is appended,
      neither selected nor hovered. */
  function UpdatedKeyframes<Rect>(ks: seq<Keyframe<Rect>>, inputRect: Rect, id: nat): seq<Keyframe<Rect>>
  {
    match FindKeyframe(ks, id)
    case Some(j) => ks[j := ks[j].(inputRect := inputRect)]
    case None => ks + [Keyframe(inputRect, false, false, id)]
  }

  /** On a known id only its rectangle changes: the flags stay, and so does every other
      keyframe. */
  lemma UpdateKnown<Rect>(ks: seq<Keyframe<Rect>>, inputRect: Rect, id: nat, j: nat)
    requires j < |ks| && ks[j].id == id && UniqueIds(ks)
    ensures |UpdatedKeyframes(ks, inputRect, id)| == |ks|
    ensures UpdatedKeyframes(ks, inputRect, id)[j] ==
              Keyframe(inputRect, ks[j].selected, ks[j].hovered, id)
    ensures forall k :: 0 <= k < |ks| && k != j ==> UpdatedKeyframes(ks, inputRect, id)[k] == ks[k]
  {
  }

  /** On a new id one keyframe is appended, unselected and not hovered. */
  lemma UpdateUnknown<Rect>(ks: seq<Keyframe<Rect>>, inputRect: Rect, id: nat)
    requires forall k :: 0 <= k < |ks| ==> ks[k].id != id
    ensures UpdatedKeyframes(ks, inputRect, id) == ks + [Keyframe(inputRect, false, false, id)]
  {
  }

  /** The table never shrinks, never gets a duplicate id, and afterwards holds the id
      with the new rectangle. */
  lemma UpdateKeepsTable<Rect>(ks: seq<Keyframe<Rect>>, inputRect: Rect, id: nat)
    requires UniqueIds(ks)
    ensures var ks' := UpdatedKeyframes(ks, inputRect, id);
            |ks'| >= |ks| && UniqueIds(ks') &&
            FindKeyframe(ks', id).Some? && ks'[FindKeyframe(ks', id).value].inputRect == inputRect &&
            forall k :: 0 <= k < |ks| ==> ks'[k].id == ks[k].id
  {
    var ks' := UpdatedKeyframes(ks, inputRect, id);
    match FindKeyframe(ks, id)
    case Some(j) =>
      assert ks'[j].id == id;
    case None =>
      assert ks'[|ks|].id == id;
  }

  /** `is_keyframe_selected`: the stored flag of the keyframe with the id, false for an
      unknown id. */
  function KeyframeSelected<Rect>(ks: seq<Keyframe<Rect>>, id: nat): bool
  {
    match FindKeyframe(ks, id)
    case Some(j) => ks[j].selected
    case None => false
  }

  /** `is_keyframe_hovered`, likewise for the hover flag. */
  function KeyframeHovered<Rect>(ks: seq<Keyframe<Rect>>, id: nat): bool
  {
    match FindKeyframe(ks, id)
    case Some(j) => ks[j].hovered
    case None => false
  }

  /** With unique ids, an id reads as selected exactly when its keyframe is selected. */
  lemma SelectedIff<Rect>(ks: seq<Keyframe<Rect>>, id: nat)
    requires UniqueIds(ks)
    ensures KeyframeSelected(ks, id) <==> exists j :: 0 <= j < |ks| && ks[j].id == id && ks[j].selected
  {
    if j :| 0 <= j < |ks| && ks[j].id == id && ks[j].selected {
      assert FindKeyframe(ks, id) == Some(j);
    }
  }

  /** With unique ids, an id reads as hovered exactly when its keyframe is hovered. */
  lemma HoveredIff<Rect>(ks: seq<Keyframe<Rect>>, id: nat)
    requires UniqueIds(ks)
    ensures KeyframeHovered(ks, id) <==> exists j :: 0 <= j < |ks| && ks[j].id == id && ks[j].hovered
  {
    if j :| 0 <= j < |ks| && ks[j].id == id && ks[j].hovered {
      assert FindKeyframe(ks, id) == Some(j);
    }
  }

  // Selection

  /** The first input loop on one keyframe: it is hovered when the mouse is in its
      rectangle, and with the secondary button down a hovered keyframe is selected. */
  function Hovered<Rect>(k: Keyframe<Rect>, contains: Rect -> bool, secondaryDown: bool): Keyframe<Rect>
  {
    k.(hovered := contains(k.inputRect), selected := k.selected || (secondaryDown && contains(k.inputRect)))
  }

  /** The id of the last keyframe the mouse is over. */
  function LastHoveredId<Rect>(ks: seq<Keyframe<Rect>>, contains: Rect -> bool): (r: Option<nat>)
    ensures r.Some? <==> exists j :: 0 <= j < |ks| && contains(ks[j].inputRect)
    ensures r.Some? ==> exists j :: 0 <= j < |ks| && contains(ks[j].inputRect) && ks[j].id == r.value &&
                                  forall q :: j < q < |ks| ==> !contains(ks[q].inputRect)
  {
    if ks == [] then None
    else if contains(ks[|ks| - 1].inputRect) then Some(ks[|ks| - 1].id)
    else LastHoveredId(ks[..|ks| - 1], contains)
  }

  /** The table after the first input loop and the deselection of the others. */
  function Selection<Rect>(ks: seq<Keyframe<Rect>>, contains: Rect -> bool, secondaryDown: bool, shift: bool): (r: seq<Keyframe<Rect>>)
    ensures |r| == |ks|
  {
    var hovered := seq(|ks|, j requires 0 <= j < |ks| => Hovered(ks[j], contains, secondaryDown));
    if secondaryDown && !shift && LastHoveredId(ks, contains).Some? then
      var id := LastHoveredId(ks, contains).value;
      seq(|ks|, j requires 0 <= j < |ks| => if hovered[j].id != id then hovered[j].(selected := false) else hovered[j])
    else hovered
  }

  /** Every keyframe's hover flag is whether the mouse is over it, and nothing but the
      flags changes. */
  lemma SelectionHover<Rect>(ks: seq<Keyframe<Rect>>, contains: Rect -> bool, secondaryDown: bool, shift: bool)
    ensures forall j :: 0 <= j < |ks| ==>
              Selection(ks, contains, secondaryDown, shift)[j].hovered == contains(ks[j].inputRect) &&
              Selection(ks, contains, secondaryDown, shift)[j].inputRect == ks[j].inputRect &&
              Selection(ks, contains, secondaryDown, shift)[j].id == ks[j].id
  {
  }

  /** Without the secondary button the selection stays as it was. */
  lemma SelectionIdle<Rect>(ks: seq<Keyframe<Rect>>, contains: Rect -> bool, shift: bool)
    ensures forall j :: 0 <= j < |ks| ==> Selection(ks, contains, false, shift)[j].selected == ks[j].selected
  {
  }

  /** With the secondary button and shift, every hovered keyframe is added to the
      selection. */
  lemma SelectionAdds<Rect>(ks: seq<Keyframe<Rect>>, contains: Rect -> bool)
    ensures forall j :: 0 <= j < |ks| ==>
              Selection(ks, contains, true, true)[j].selected == (ks[j].selected || contains(ks[j].inputRect))
  {
  }

  /** With the secondary button and no shift, once anything is hovered only keyframes with
      the last hovered id stay selected: those already selected or hovered. */
  lemma SelectionReplaces<Rect>(ks: seq<Keyframe<Rect>>, contains: Rect -> bool, j: nat)
    requires j < |ks| && contains(ks[j].inputRect)
    ensures LastHoveredId(ks, contains).Some?
    ensures forall k :: 0 <= k < |ks| ==>
              Selection(ks, contains, true, false)[k].selected ==
                (ks[k].id == LastHoveredId(ks, contains).value && (ks[k].selected || contains(ks[k].inputRect)))
  {
  }

  /** With the primary or secondary button down, nothing hovered and no drag, every
      keyframe is deselected. */
  function Deselected<Rect>(ks: seq<Keyframe<Rect>>): (r: seq<Keyframe<Rect>>)
    ensures |r| == |ks| && forall j :: 0 <= j < |ks| ==> r[j] == ks[j].(selected := false)
  {
    if ks == [] then [] else [ks[0].(selected := false)] + Deselected(ks[1..])
  }

  // Drag and delete

  /** The frames being edited, whether a drag is in progress, and the move offset
      `((x - start_drag_x) / zoom).round()` the loop computes for the next keyframe. */
  datatype EditState = EditState(frames: seq<Frame>, dragging: bool, offset: int)

  /** The third input loop on one keyframe: a press on a hovered selected keyframe starts a
      drag and sets `start_drag_x` to the mouse position, so the offset is 0 from there on;
      a release during a drag moves the selected frame by the offset; Delete removes it.
      None where `remove_anim_frame` would panic. */
  function EditStep<Rect>(st: EditState, k: Keyframe<Rect>, duration: nat, pressed: bool, released: bool, delete: bool): Option<EditState>
  {
    var press := k.hovered && k.selected && pressed;
    var dragging := st.dragging || press;
    var offset := if press then 0 else st.offset;
    var moved := if k.selected && dragging && released then Animations.MoveFrames(st.frames, duration, k.id, offset) else None;
    var frames := if moved.Some? then moved.value else st.frames;
    if k.selected && delete then
      if Animations.RemoveSafe(frames, k.id) then Some(EditState(Animations.RemoveFrames(frames, k.id), dragging, offset)) else None
    else Some(EditState(frames, dragging, offset))
  }

  /** The third input loop over the table, keyframe by keyframe. */
  function Edits<Rect>(ks: seq<Keyframe<Rect>>, st: EditState, duration: nat, pressed: bool, released: bool, delete: bool): Option<EditState>
  {
    if ks == [] then Some(st)
    else match EditStep(st, ks[0], duration, pressed, released, delete)
      case None => None
      case Some(st') => Edits(ks[1..], st', duration, pressed, released, delete)
  }

  /** The ids of the selected keyframes, in table order. */
  function SelectedIds<Rect>(ks: seq<Keyframe<Rect>>): seq<nat>
  {
    if ks == [] then [] else (if ks[0].selected then [ks[0].id] else []) + SelectedIds(ks[1..])
  }

  /** `remove_anim_frame` for each id in turn; None where one would panic. */
  function RemoveEach(fs: seq<Frame>, ids: seq<nat>): Option<seq<Frame>>
    decreases |ids|
  {
    if ids == [] then Some(fs)
    else if Animations.RemoveSafe(fs, ids[0]) then RemoveEach(Animations.RemoveFrames(fs, ids[0]), ids[1..])
    else None
  }

  /** On Delete with no release, the loop removes exactly the frames of the selected
      keyframes, in table order. */
  lemma {:induction false} DeleteRemovesSelected<Rect>(ks: seq<Keyframe<Rect>>, st: EditState, duration: nat, pressed: bool)
    ensures Edits(ks, st, duration, pressed, false, true).Some? <==> RemoveEach(st.frames, SelectedIds(ks)).Some?
    ensures Edits(ks, st, duration, pressed, false, true).Some? ==>
              Edits(ks, st, duration, pressed, false, true).value.frames == RemoveEach(st.frames, SelectedIds(ks)).value
  {
    if ks != [] {
      var k := ks[0];
      var ids := SelectedIds(ks);
      if k.selected {
        assert ids[0] == k.id && ids[1..] == SelectedIds(ks[1..]);
      } else {
        assert ids == SelectedIds(ks[1..]);
      }
      match EditStep(st, k, duration, pressed, false, true)
      case None =>
      case Some(st') =>
        DeleteRemovesSelected(ks[1..], st', duration, pressed);
    }
  }

  /** Without a release or Delete, the loop leaves the frames alone. */
  lemma {:induction false} EditsIdle<Rect>(ks: seq<Keyframe<Rect>>, st: EditState, duration: nat, pressed: bool)
    ensures Edits(ks, st, duration, pressed, false, false).Some?
    ensures Edits(ks, st, duration, pressed, false, false).value.frames == st.frames
  {
    if ks != [] {
      var st' := EditStep(st, ks[0], duration, pressed, false, false).value;
      EditsIdle(ks[1..], st', duration, pressed);
    }
  }

  /** With a zero offset and no Delete, a release moves nothing: `move_anim_frame` returns
      None on a zero offset, and the offset stays zero. */
  lemma {:induction false} EditsZeroOffset<Rect>(ks: seq<Keyframe<Rect>>, st: EditState, duration: nat, pressed: bool, released: bool)
    requires st.offset == 0
    ensures Edits(ks, st, duration, pressed, released, false).Some?
    ensures Edits(ks, st, duration, pressed, released, false).value.frames == st.frames
    ensures Edits(ks, st, duration, pressed, released, false).value.offset == 0
  {
    if ks != [] {
      Animations.MoveFramesNone(st.frames, duration, ks[0].id, 0);
      var st' := EditStep(st, ks[0], duration, pressed, released, false).value;
      EditsZeroOffset(ks[1..], st', duration, pressed, released);
    }
  }

  /** A press and a release reported together (a quick click) on a hovered selected
      keyframe: the press resets the drag start to the mouse position, so that keyframe
      and every one after it are moved by 0, which `move_anim_frame` refuses; the frames
      are those the keyframes before it left. */
  lemma QuickClickKeepsLaterFrames<Rect>(ks: seq<Keyframe<Rect>>, st: EditState, duration: nat, i: nat)
    requires i < |ks| && ks[i].hovered && ks[i].selected
    requires Edits(ks[..i], st, duration, true, true, false).Some?
    ensures Edits(ks, st, duration, true, true, false).Some?
    ensures Edits(ks, st, duration, true, true, false).value.frames ==
              Edits(ks[..i], st, duration, true, true, false).value.frames
  {
    var before := Edits(ks[..i], st, duration, true, true, false).value;
    EditsSplit(ks, st, duration, true, true, false, i);
    var pressed := EditStep(before, ks[i], duration, true, true, false).value;
    Animations.MoveFramesNone(before.frames, duration, ks[i].id, 0);
    assert pressed.frames == before.frames && pressed.offset == 0;
    EditsZeroOffset(ks[i + 1..], pressed, duration, true, true);
  }

  /** The loop over a table is the loop over its first `i` keyframes, then the rest. */
  lemma {:induction false} EditsSplit<Rect>(ks: seq<Keyframe<Rect>>, st: EditState, duration: nat, pressed: bool, released: bool, delete: bool, i: nat)
    requires i < |ks| && Edits(ks[..i], st, duration, pressed, released, delete).Some?
    ensures var before := Edits(ks[..i], st, duration, pressed, released, delete).value;
            Edits(ks, st, duration, pressed, released, delete) ==
              match EditStep(before, ks[i], duration, pressed, released, delete)
              case None => None
              case Some(st') => Edits(ks[i + 1..], st', duration, pressed, released, delete)
    decreases i
  {
    if i > 0 {
      var st' := EditStep(st, ks[0], duration, pressed, released, delete).value;
      assert ks[..i][0] == ks[0] && ks[..i][1..] == ks[1..][..i - 1];
      assert ks[1..][i - 1] == ks[i] && ks[1..][i..] == ks[i + 1..];
      EditsSplit(ks[1..], st', duration, pressed, released, delete, i - 1);
    } else {
      assert ks[..0] == [] && ks[1..] == ks[i + 1..];
    }
  }

  class Timeline<Rect> {
    var keyframes: seq<Keyframe<Rect>>
    var dragging: bool

    /** `Timeline::init`: no keyframes, and `dragging` starts out true. */
    constructor Init()
      ensures keyframes == [] && dragging
    {
      keyframes := [];
      dragging := true;
    }

    /** `update_keyframe`. */
    method UpdateKeyframe(inputRect: Rect, frameId: nat)
      modifies this
      ensures keyframes == UpdatedKeyframes(old(keyframes), inputRect, frameId)
      ensures dragging == old(dragging)
    {
      var index := 0;
      while index < |keyframes| && keyframes[index].id != frameId
        invariant index <= |keyframes|
        invariant forall j :: 0 <= j < index ==> keyframes[j].id != frameId
      {
        index := index + 1;
      }
      if index < |keyframes| {
        assert FindKeyframe(keyframes, frameId) == Some(index);
        keyframes := keyframes[index := keyframes[index].(inputRect := inputRect)];
      } else {
        keyframes := keyframes + [Keyframe(inputRect, false, false, frameId)];
      }
    }

    /** `is_keyframe_selected`. */
    method IsKeyframeSelected(frameId: nat) returns (selected: bool)
      ensures selected == KeyframeSelected(keyframes, frameId)
      ensures selected ==> exists j :: 0 <= j < |keyframes| && keyframes[j].id == frameId && keyframes[j].selected
    {
      selected := false;
      var index := 0;
      while index < |keyframes| && keyframes[index].id != frameId
        invariant index <= |keyframes|
        invariant forall j :: 0 <= j < index ==> keyframes[j].id != frameId
      {
        index := index + 1;
      }
      if index < |keyframes| {
        assert FindKeyframe(keyframes, frameId) == Some(index);
        selected := keyframes[index].selected;
      }
    }

    /** `is_keyframe_hovered`. */
    method IsKeyframeHovered(frameId: nat) returns (hovered: bool)
      ensures hovered == KeyframeHovered(keyframes, frameId)
      ensures hovered ==> exists j :: 0 <= j < |keyframes| && keyframes[j].id == frameId && keyframes[j].hovered
    {
      hovered := false;
      var index := 0;
      while index < |keyframes| && keyframes[index].id != frameId
        invariant index <= |keyframes|
        invariant forall j :: 0 <= j < index ==> keyframes[j].id != frameId
      {
        index := index + 1;
      }
      if index < |keyframes| {
        assert FindKeyframe(keyframes, frameId) == Some(index);
        hovered := keyframes[index].hovered;
      }
    }

    /** The first input loop: set each hover flag, select what the secondary button is
        over, and note the last such id unless shift is held. */
    method HoverAndSelect(contains: Rect -> bool, secondaryDown: bool, shift: bool)
        returns (anyHovered: bool, deselectOthers: Option<nat>)
      modifies this
      ensures |keyframes| == |old(keyframes)|
      ensures forall j :: 0 <= j < |keyframes| ==> keyframes[j] == Hovered(old(keyframes)[j], contains, secondaryDown)
      ensures anyHovered <==> LastHoveredId(old(keyframes), contains).Some?
      ensures deselectOthers == if secondaryDown && !shift then LastHoveredId(old(keyframes), contains) else None
      ensures dragging == old(dragging)
    {
      ghost var ks := keyframes;
      anyHovered := false;
      deselectOthers := None;
      for k := 0 to |keyframes|
        invariant |keyframes| == |ks| && dragging == old(dragging)
        invariant forall j :: 0 <= j < k ==> keyframes[j] == Hovered(ks[j], contains, secondaryDown)
        invariant forall j :: k <= j < |ks| ==> keyframes[j] == ks[j]
        invariant anyHovered <==> LastHoveredId(ks[..k], contains).Some?
        invariant deselectOthers == if secondaryDown && !shift then LastHoveredId(ks[..k], contains) else None
      {
        assert ks[..k + 1][..k] == ks[..k];
        var keyframe := keyframes[k];
        keyframe := keyframe.(hovered := contains(keyframe.inputRect));
        if keyframe.hovered {
          anyHovered := true;
        }
        if secondaryDown && keyframe.hovered {
          if !shift {
            deselectOthers := Some(keyframe.id);
          }
          keyframe := keyframe.(selected := true);
        }
        keyframes := keyframes[k := keyframe];
      }
      assert ks[..|ks|] == ks;
    }

    /** The second input loop: deselect every keyframe whose id is not `id`. */
    method DeselectOthers(id: nat)
      modifies this
      ensures |keyframes| == |old(keyframes)|
      ensures forall j :: 0 <= j < |keyframes| ==>
                keyframes[j] == if old(keyframes)[j].id != id then old(keyframes)[j].(selected := false) else old(keyframes)[j]
      ensures dragging == old(dragging)
    {
      ghost var ks := keyframes;
      for k := 0 to |keyframes|
        invariant |keyframes| == |ks| && dragging == old(dragging)
        invariant forall j :: 0 <= j < k ==>
                    keyframes[j] == if ks[j].id != id then ks[j].(selected := false) else ks[j]
        invariant forall j :: k <= j < |ks| ==> keyframes[j] == ks[j]
      {
        if keyframes[k].id != id {
          keyframes := keyframes[k := keyframes[k].(selected := false)];
        }
      }
    }

    /** The third input loop, over the table and the open animation: start a drag, move
        on release by `offset`, the offset from the drag start held before the loop, which
        turns 0 once a press restarts the drag, and remove on Delete. */
    method EditFrames(animation: Animations.Animation, pressed: bool, released: bool, delete: bool, offset: int)
      requires Edits(keyframes, EditState(animation.frames, dragging, offset), animation.duration, pressed, released, delete).Some?
      modifies this, animation
      ensures var r := Edits(old(keyframes), EditState(old(animation.frames), old(dragging), offset), old(animation.duration),
                             pressed, released, delete).value;
              animation.frames == r.frames && dragging == r.dragging
      ensures keyframes == old(keyframes)
      ensures animation.name == old(animation.name) && animation.duration == old(animation.duration) &&
              animation.currentFrame == old(animation.currentFrame)
    {
      ghost var result := Edits(keyframes, EditState(animation.frames, dragging, offset), animation.duration,
                                pressed, released, delete);
      var dragOffset := offset;
      for k := 0 to |keyframes|
        invariant keyframes == old(keyframes)
        invariant animation.name == old(animation.name) && animation.duration == old(animation.duration) &&
                  animation.currentFrame == old(animation.currentFrame)
        invariant Edits(keyframes[k..], EditState(animation.frames, dragging, dragOffset), animation.duration,
                        pressed, released, delete) == result
      {
        var keyframe := keyframes[k];
        assert keyframes[k..][1..] == keyframes[k + 1..];
        if keyframe.hovered && keyframe.selected && pressed {
          // `start_drag_x = mouse_pos.x`
          dragOffset := 0;
          dragging := true;
        }
        if keyframe.selected && dragging && released {
          var _ := animation.MoveAnimFrame(keyframe.id, dragOffset);
        }
        if keyframe.selected && delete {
          animation.RemoveAnimFrame(keyframe.id);
        }
      }
    }

    /** The selection, drag and delete rules of `input`, with the mouse position given by
        `contains` and the buttons and keys as flags; `offset` is the move offset from the
        drag start held before the call. */
    method Input(contains: Rect -> bool, primaryDown: bool, secondaryDown: bool, shift: bool,
                 pressed: bool, released: bool, delete: bool, offset: int, animation: Animations.Animation?)
      requires animation != null ==>
                 Edits(Selection(keyframes, contains, secondaryDown, shift), EditState(animation.frames, dragging, offset),
                       animation.duration, pressed, released, delete).Some?
      modifies this, animation
      ensures var selection := Selection(old(keyframes), contains, secondaryDown, shift);
              var draggingAfterEdits :=
                if animation == null then old(dragging)
                else Edits(selection, EditState(old(animation.frames), old(dragging), offset), old(animation.duration),
                           pressed, released, delete).value.dragging;
              (animation != null ==>
                 animation.frames == Edits(selection, EditState(old(animation.frames), old(dragging), offset),
                                           old(animation.duration), pressed, released, delete).value.frames) &&
              dragging == (draggingAfterEdits && !released) &&
              keyframes == if LastHoveredId(old(keyframes), contains).None? && !dragging && (primaryDown || secondaryDown)
                           then Deselected(selection) else selection
      ensures animation != null ==>
                animation.name == old(animation.name) && animation.duration == old(animation.duration) &&
                animation.currentFrame == old(animation.currentFrame)
    {
      var anyHovered, deselectOthers := HoverAndSelect(contains, secondaryDown, shift);
      if deselectOthers.Some? {
        DeselectOthers(deselectOthers.value);
      }
      assert keyframes == Selection(old(keyframes), contains, secondaryDown, shift);
      if animation != null {
        EditFrames(animation, pressed, released, delete, offset);
      }
      if dragging && released {
        dragging := false;
      }
      if !anyHovered && !dragging && (primaryDown || secondaryDown) {
        keyframes := Deselected(keyframes);
      }
    }
  }
}
