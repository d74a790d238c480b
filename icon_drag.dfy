/**
 * Dragging an application icon from one workspace preview onto another.
 * Pressing an icon starts a drag record holding a snapshot of the preview
 * boxes; every event the stage captures is then fed to one transition: a
 * motion beyond the threshold turns the press into a drag and highlights
 * the box under the pointer, a left release either activates the
 * application (no drag) or moves its windows to the workspace under the
 * pointer, and Escape or any release ends the drag.
 */
module IconDrag {
  import opened Wrappers

  /** A preview item as the snapshot remembers it: creation serial and index. */
  datatype ItemRef = ItemRef(serial: nat, index: int)

  /** A box in stage coordinates, edges included. */
  datatype Box = Box(x1: int, y1: int, x2: int, y2: int)

  /** Where the toolkit places an item: its transformed position and its
      allocation box (whose size is used). */
  datatype Placement = Placement(x: int, y: int, alloc: Box)

  datatype Bound = Bound(item: ItemRef, box: Box)

  /** The threshold used when the toolkit settings offer none. */
  const DEFAULT_DRAG_THRESHOLD := 8

  predicate Contains(b: Box, x: int, y: int)
  {
    b.x1 <= x <= b.x2 && b.y1 <= y <= b.y2
  }

  /** The box an item occupies on the stage. */
  function Placed(p: Placement): (b: Box)
    ensures b.x2 - b.x1 == p.alloc.x2 - p.alloc.x1 && b.y2 - b.y1 == p.alloc.y2 - p.alloc.y1
    ensures b.x1 == p.x && b.y1 == p.y
  {
    Box(p.x, p.y, p.x + (p.alloc.x2 - p.alloc.x1), p.y + (p.alloc.y2 - p.alloc.y1))
  }

  /**
   * The snapshot taken when a drag starts: one bound per item the toolkit
   * can place, in item order; items it cannot place are dropped.
   */
  function Snapshot(items: seq<ItemRef>, geometry: map<nat, Placement>): (r: seq<Bound>)
    ensures |r| <= |items|
    ensures forall i :: 0 <= i < |r| ==>
      r[i].item in items && r[i].item.serial in geometry && r[i].box == Placed(geometry[r[i].item.serial])
    ensures (forall i :: 0 <= i < |items| ==> items[i].serial in geometry) ==>
      |r| == |items| && forall i :: 0 <= i < |r| ==> r[i].item == items[i]
  {
    if items == [] then []
    else
      var init := Snapshot(items[..|items| - 1], geometry);
      var last := items[|items| - 1];
      assert forall i :: 0 <= i < |items| - 1 ==> items[..|items| - 1][i] == items[i];
      if last.serial in geometry then init + [Bound(last, Placed(geometry[last.serial]))] else init
  }

  /** `pos` picks out of `items`, in increasing positions, the items of `bounds`,
      and holds every item that has a placement. */
  ghost predicate PicksInOrder(items: seq<ItemRef>, geometry: map<nat, Placement>, bounds: seq<Bound>, pos: seq<int>)
  {
    && |pos| == |bounds|
    && (forall k :: 0 <= k < |pos| ==> 0 <= pos[k] < |items| && items[pos[k]] == bounds[k].item)
    && (forall k, l :: 0 <= k < l < |pos| ==> pos[k] < pos[l])
    && (forall i :: 0 <= i < |items| && items[i].serial in geometry ==> i in pos)
  }

  /**
   * The snapshot keeps the placeable items in item order: the positions it
   * took its bounds from increase strictly, and every item the toolkit can
   * place is among them.
   */
  lemma {:induction false} SnapshotInItemOrder(items: seq<ItemRef>, geometry: map<nat, Placement>)
    returns (pos: seq<int>)
    ensures |pos| == |Snapshot(items, geometry)|
    ensures forall k :: 0 <= k < |pos| ==>
      0 <= pos[k] < |items| && items[pos[k]] == Snapshot(items, geometry)[k].item
    ensures forall k, l :: 0 <= k < l < |pos| ==> pos[k] < pos[l]
    ensures forall i :: 0 <= i < |items| && items[i].serial in geometry ==> i in pos
    decreases |items|
  {
    if items == [] {
      pos := [];
    } else {
      var n := |items| - 1;
      var p := SnapshotInItemOrder(items[..n], geometry);
      var s := Snapshot(items[..n], geometry);
      if items[n].serial in geometry {
        assert Snapshot(items, geometry) == s + [Bound(items[n], Placed(geometry[items[n].serial]))];
      } else {
        assert Snapshot(items, geometry) == s;
      }
      pos := PicksExtend(items, geometry, s, p, Snapshot(items, geometry));
    }
  }

  /** Extending the items by one keeps the pick, adding the new item's position when it is placed. */
  lemma PicksExtend(items: seq<ItemRef>, geometry: map<nat, Placement>, s: seq<Bound>, p: seq<int>, r: seq<Bound>)
    returns (pos: seq<int>)
    requires |items| > 0 && PicksInOrder(items[..|items| - 1], geometry, s, p)
    requires items[|items| - 1].serial in geometry ==>
      |r| == |s| + 1 && r[..|s|] == s && r[|s|].item == items[|items| - 1]
    requires items[|items| - 1].serial !in geometry ==> r == s
    ensures PicksInOrder(items, geometry, r, pos)
  {
    var n := |items| - 1;
    pos := if items[n].serial in geometry then p + [n] else p;
    forall k | 0 <= k < |pos|
      ensures 0 <= pos[k] < |items| && items[pos[k]] == r[k].item
    {
      if k < |p| {
        assert pos[k] == p[k] && r[k] == s[k] && items[p[k]] == items[..n][p[k]];
      }
    }
    forall i | 0 <= i < |items| && items[i].serial in geometry
      ensures i in pos
    {
      if i < n {
        assert items[..n][i] == items[i];
      } else {
        assert pos[|pos| - 1] == i;
      }
    }
  }

  /** Position of the first bound containing the point, or -1. */
  function FirstHit(bounds: seq<Bound>, x: int, y: int): (k: int)
    ensures -1 <= k < |bounds|
    ensures k >= 0 ==> Contains(bounds[k].box, x, y)
    ensures k >= 0 ==> forall j :: 0 <= j < k ==> !Contains(bounds[j].box, x, y)
    ensures k == -1 <==> forall j :: 0 <= j < |bounds| ==> !Contains(bounds[j].box, x, y)
  {
    if bounds == [] then -1
    else if Contains(bounds[0].box, x, y) then 0
    else
      var k := FirstHit(bounds[1..], x, y);
      assert forall j :: 1 <= j < |bounds| ==> bounds[1..][j - 1] == bounds[j];
      if k < 0 then -1 else k + 1
  }

  /** The item under the pointer, from the snapshot. */
  function FindItemAt(bounds: seq<Bound>, x: int, y: int): Option<ItemRef>
  {
    var k := FirstHit(bounds, x, y);
    if k < 0 then None else Some(bounds[k].item)
  }

  /** Hit-testing answers the item of the first snapshotted box holding the
      point, and nothing exactly when no box holds it. */
  lemma FindItemAtFirstBox(bounds: seq<Bound>, x: int, y: int, k: nat)
    requires k < |bounds| && Contains(bounds[k].box, x, y)
    requires forall j :: 0 <= j < k ==> !Contains(bounds[j].box, x, y)
    ensures FindItemAt(bounds, x, y) == Some(bounds[k].item)
  {
  }

  /** The hit test as a scan over the snapshot, answering at the first box that holds the point. */
  method FindWorkspaceItemAt(bounds: seq<Bound>, x: int, y: int) returns (item: Option<ItemRef>)
    ensures item == FindItemAt(bounds, x, y)
  {
    for i := 0 to |bounds|
      invariant forall j :: 0 <= j < i ==> !Contains(bounds[j].box, x, y)
    {
      var b := bounds[i].box;
      if x >= b.x1 && x <= b.x2 && y >= b.y1 && y <= b.y2 {
        FindItemAtFirstBox(bounds, x, y, i);
        return Some(bounds[i].item);
      }
    }
    return None;
  }

  /** The workspace index the pointer is over, if any. */
  function TargetIndexAt(bounds: seq<Bound>, x: int, y: int): Option<int>
  {
    match FindItemAt(bounds, x, y)
    case None => None
    case Some(item) => Some(item.index)
  }

  /** The first threshold the toolkit settings offer, else the default. */
  function DragThreshold(dnd: Option<int>, drag: Option<int>, property: Option<int>): (t: int)
    ensures dnd.Some? ==> t == dnd.value
    ensures dnd.None? && drag.Some? ==> t == drag.value
    ensures dnd.None? && drag.None? && property.Some? ==> t == property.value
    ensures dnd.None? && drag.None? && property.None? ==> t == DEFAULT_DRAG_THRESHOLD
  {
    if dnd.Some? then dnd.value
    else if drag.Some? then drag.value
    else property.GetOr(DEFAULT_DRAG_THRESHOLD)
  }

  /** The drag record: what was pressed, where, and whether it became a drag. */
  datatype DragState = DragState(
    appId: string,
    sourceWorkspace: int,
    windows: seq<nat>,
    iconSize: int,
    startX: int,
    startY: int,
    dragging: bool,
    threshold2: int,
    bounds: seq<Bound>)

  /** The record a press creates: not dragging yet, threshold squared. */
  function NewDrag(appId: string, sourceWorkspace: int, windows: seq<nat>, iconSize: int,
                   startX: int, startY: int, threshold: int, bounds: seq<Bound>): (d: DragState)
    ensures !d.dragging && d.threshold2 == threshold * threshold && d.threshold2 >= 0
    ensures d.startX == startX && d.startY == startY && d.bounds == bounds
    ensures d.sourceWorkspace == sourceWorkspace && d.windows == windows && d.appId == appId
  {
    DragState(appId, sourceWorkspace, windows, iconSize, startX, startY, false, threshold * threshold, bounds)
  }

  datatype Event =
    | KeyPress(escape: bool)
    | Motion(x: int, y: int)
    | ButtonRelease(x: int, y: int, button: Option<int>)
    | OtherEvent

  /** What the handler does outside the drag record. */
  datatype Effect =
    | NoEffect
    | ActivateApp(appId: string, windows: seq<nat>)
    | MoveWindows(windows: seq<nat>, target: int)

  /** The result of one captured event: the drag record (None once ended),
      the highlighted item, the effect, and whether the event is stopped. */
  datatype Outcome = Outcome(drag: Option<DragState>, highlight: Option<ItemRef>, effect: Effect, stop: bool)

  /** The motion has not gone past the threshold (squared distance below it). */
  predicate WithinThreshold(d: DragState, x: int, y: int)
  {
    (x - d.startX) * (x - d.startX) + (y - d.startY) * (y - d.startY) < d.threshold2
  }

  /** The left button, which is also assumed when the button cannot be read. */
  predicate IsLeftRelease(ev: Event)
  {
    ev.ButtonRelease? && ev.button.GetOr(1) == 1
  }

  /** One captured event while a drag record exists. */
  function Step(d: DragState, highlight: Option<ItemRef>, ev: Event): (o: Outcome)
    ensures ev.ButtonRelease? || ev == KeyPress(true) ==> o.drag.None? && o.highlight.None?
    ensures !ev.ButtonRelease? && ev != KeyPress(true) ==> o.drag.Some?
    ensures o.drag.Some? ==> o.drag.value == d.(dragging := o.drag.value.dragging)
    ensures o.drag.Some? ==> o.drag.value.dragging == (d.dragging || (ev.Motion? && !WithinThreshold(d, ev.x, ev.y)))
    ensures o.drag.Some? && !o.drag.value.dragging ==> o.highlight == highlight
    ensures ev.Motion? && o.drag.Some? && o.drag.value.dragging ==> o.highlight == FindItemAt(d.bounds, ev.x, ev.y)
    ensures o.drag.Some? && !ev.Motion? ==> o.highlight == highlight
    ensures o.effect.ActivateApp? <==> IsLeftRelease(ev) && !d.dragging
    ensures o.effect.ActivateApp? ==> o.effect == ActivateApp(d.appId, d.windows)
    ensures o.effect.MoveWindows? <==>
      IsLeftRelease(ev) && d.dragging &&
      TargetIndexAt(d.bounds, ev.x, ev.y).Some? &&
      TargetIndexAt(d.bounds, ev.x, ev.y).value != d.sourceWorkspace
    ensures o.effect.MoveWindows? ==>
      o.effect.windows == d.windows && Some(o.effect.target) == TargetIndexAt(d.bounds, ev.x, ev.y)
    ensures o.stop <==> ev.Motion? || ev == KeyPress(true) || IsLeftRelease(ev)
  {
    match ev
    case KeyPress(escape) =>
      if escape then Outcome(None, None, NoEffect, true)
      else Outcome(Some(d), highlight, NoEffect, false)
    case Motion(x, y) =>
      if !d.dragging && WithinThreshold(d, x, y) then Outcome(Some(d), highlight, NoEffect, true)
      else Outcome(Some(d.(dragging := true)), FindItemAt(d.bounds, x, y), NoEffect, true)
    case ButtonRelease(x, y, button) =>
      if button.GetOr(1) == 1 then
        if !d.dragging then Outcome(None, None, ActivateApp(d.appId, d.windows), true)
        else
          var target := TargetIndexAt(d.bounds, x, y);
          var effect := if target.Some? && target.value != d.sourceWorkspace
                        then MoveWindows(d.windows, target.value) else NoEffect;
          Outcome(None, None, effect, true)
      else Outcome(None, None, NoEffect, false)
    case OtherEvent =>
      Outcome(Some(d), highlight, NoEffect, false)
  }

  /** The effects of feeding a sequence of events to a drag, stopping when it ends. */
  function Run(d: DragState, highlight: Option<ItemRef>, evs: seq<Event>): seq<Effect>
    decreases |evs|
  {
    if evs == [] then []
    else
      var o := Step(d, highlight, evs[0]);
      [o.effect] + (if o.drag.Some? then Run(o.drag.value, o.highlight, evs[1..]) else [])
  }

  /** The record in force after a sequence of events, None once the drag ended. */
  function FinalDrag(d: DragState, highlight: Option<ItemRef>, evs: seq<Event>): Option<DragState>
    decreases |evs|
  {
    if evs == [] then Some(d)
    else
      var o := Step(d, highlight, evs[0]);
      if o.drag.Some? then FinalDrag(o.drag.value, o.highlight, evs[1..]) else None
  }

  /** Every motion of the sequence stays within the threshold of the press. */
  predicate MotionsWithin(d: DragState, evs: seq<Event>)
  {
    forall i :: 0 <= i < |evs| && evs[i].Motion? ==> WithinThreshold(d, evs[i].x, evs[i].y)
  }

  /**
   * A press whose pointer never leaves the threshold is a click: no event
   * sequence moves windows, and the record never turns into a drag.
   */
  lemma {:induction false} ClickNeverMoves(d: DragState, highlight: Option<ItemRef>, evs: seq<Event>)
    requires !d.dragging && MotionsWithin(d, evs)
    ensures forall i :: 0 <= i < |Run(d, highlight, evs)| ==> !Run(d, highlight, evs)[i].MoveWindows?
    ensures FinalDrag(d, highlight, evs).Some? ==> FinalDrag(d, highlight, evs).value == d
    decreases |evs|
  {
    if evs != [] {
      var o := Step(d, highlight, evs[0]);
      if o.drag.Some? {
        assert o.drag.value == d;
        assert MotionsWithin(d, evs[1..]) by {
          forall i | 0 <= i < |evs[1..]| && evs[1..][i].Motion?
            ensures WithinThreshold(d, evs[1..][i].x, evs[1..][i].y)
          {
            assert evs[1..][i] == evs[i + 1];
          }
        }
        ClickNeverMoves(d, o.highlight, evs[1..]);
      }
    }
  }

  /** Once the pointer has crossed the threshold the record stays a drag
      until the drag ends, whatever the pointer does afterwards. */
  lemma {:induction false} DraggingIsSticky(d: DragState, highlight: Option<ItemRef>, evs: seq<Event>)
    requires d.dragging
    ensures FinalDrag(d, highlight, evs).Some? ==> FinalDrag(d, highlight, evs).value == d
    decreases |evs|
  {
    if evs != [] {
      var o := Step(d, highlight, evs[0]);
      if o.drag.Some? {
        DraggingIsSticky(o.drag.value, o.highlight, evs[1..]);
      }
    }
  }

  /** A drag dropped back onto its own workspace, or outside every
      preview, moves nothing and ends. */
  lemma DropOnSourceMovesNothing(d: DragState, highlight: Option<ItemRef>, x: int, y: int)
    requires d.dragging
    requires TargetIndexAt(d.bounds, x, y) == Some(d.sourceWorkspace) || TargetIndexAt(d.bounds, x, y).None?
    ensures Step(d, highlight, ButtonRelease(x, y, None)).effect == NoEffect
    ensures Step(d, highlight, ButtonRelease(x, y, None)).drag.None?
  {
  }
}
