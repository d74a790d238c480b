/**
 * Placement of the overview hot corners, one per monitor: the corner sits at
 * the top-left pixel of the monitor (top-right in right-to-left layouts) and
 * is left out where another monitor lies directly beside or above it, so
 * that it does not catch the pointer as it moves across; the primary monitor
 * with a panel on its top or left edge, or with the force setting on,
 * always gets one. The corner's pressure barrier is never larger than the
 * shell's own panel height.
 */
module HotCorners {
  import opened Wrappers
  import opened PanelManager

  /** A hot corner on a monitor: its position and its barrier size. */
  datatype Corner = Corner(monitor: nat, x: int, y: int, barrierSize: int)

  /** Monitor rectangles contain their left and top edges, not their right and bottom ones. */
  predicate InMonitor(m: Monitor, x: int, y: int)
  {
    m.x <= x < m.x + m.width && m.y <= y < m.y + m.height
  }

  /**
   * Hot corners are on unless the shell's global key exists and is off, or
   * the desktop interface settings exist and turn them off.
   */
  predicate HotCornersEnabled(globalKey: Option<bool>, interfaceSetting: Option<bool>)
  {
    !((globalKey.Some? && !globalKey.value) || (interfaceSetting.Some? && !interfaceSetting.value))
  }

  /** Some monitor other than monitor `i` contains the point. */
  ghost predicate CoveredByOther(monitors: seq<Monitor>, i: int, x: int, y: int)
  {
    exists j :: 0 <= j < |monitors| && j != i && InMonitor(monitors[j], x, y)
  }

  /** The corner's horizontal position: the monitor's left edge, or its right edge for right-to-left. */
  function CornerX(m: Monitor, rtl: bool): int
  {
    if rtl then m.x + m.width else m.x
  }

  /** The point beside the corner that a neighbouring monitor would contain (as the shell computes it). */
  function BesideX(m: Monitor, rtl: bool): int
  {
    if rtl then m.x + 1 else CornerX(m, rtl) - 1
  }

  /** The panel on a monitor sits on its top or left edge (no panel counts as bottom). */
  predicate PanelTopLeft(panels: seq<PanelGeometry>, i: nat)
  {
    var p := GeometryOn(panels, i);
    p.Some? && (p.value.position == Top || p.value.position == Left)
  }

  /** The monitor always gets a corner: it is the primary, with a top or left panel or with the force setting. */
  predicate AlwaysHasCorner(panels: seq<PanelGeometry>, i: nat, primaryIndex: int, force: bool)
  {
    i == primaryIndex && (PanelTopLeft(panels, i) || force)
  }

  /** The barrier size: the panel's inner size, or the shell's panel height without a panel, capped at the latter. */
  function BarrierSize(panels: seq<PanelGeometry>, i: nat, shellPanelSize: int): (b: int)
    ensures b <= shellPanelSize
    ensures GeometryOn(panels, i).None? ==> b == shellPanelSize
    ensures GeometryOn(panels, i).Some? ==>
      b == shellPanelSize || b == GeometryOn(panels, i).value.innerSize
    ensures GeometryOn(panels, i).Some? ==> b <= GeometryOn(panels, i).value.innerSize
  {
    var size := if GeometryOn(panels, i).Some? then GeometryOn(panels, i).value.innerSize else shellPanelSize;
    if size < shellPanelSize then size else shellPanelSize
  }

  /** The hot corner of monitor `i`, if it gets one. */
  ghost function HotCornerAt(monitors: seq<Monitor>, panels: seq<PanelGeometry>, i: nat, primaryIndex: int,
                             rtl: bool, force: bool, shellPanelSize: int): Option<Corner>
    requires i < |monitors|
  {
    var m := monitors[i];
    if AlwaysHasCorner(panels, i, primaryIndex, force)
       || !(CoveredByOther(monitors, i, BesideX(m, rtl), m.y) || CoveredByOther(monitors, i, CornerX(m, rtl), m.y - 1))
    then Some(Corner(i, CornerX(m, rtl), m.y, BarrierSize(panels, i, shellPanelSize)))
    else None
  }

  /** The hot corner list: empty when hot corners are off, one entry per monitor otherwise. */
  ghost function HotCornerList(monitors: seq<Monitor>, panels: seq<PanelGeometry>, primaryIndex: int, rtl: bool,
                               force: bool, globalKey: Option<bool>, interfaceSetting: Option<bool>,
                               shellPanelSize: int): seq<Option<Corner>>
  {
    if !HotCornersEnabled(globalKey, interfaceSetting) then []
    else seq(|monitors|, i requires 0 <= i < |monitors| =>
           HotCornerAt(monitors, panels, i, primaryIndex, rtl, force, shellPanelSize))
  }

  /**
   * Whether monitor `i` keeps its corner: no other monitor contains the
   * point beside the corner or the point just above it; the scan stops at
   * the first one that does.
   */
  method HasTopLeftCorner(monitors: seq<Monitor>, i: nat, rtl: bool) returns (have: bool)
    requires i < |monitors|
    ensures have <==> !(CoveredByOther(monitors, i, BesideX(monitors[i], rtl), monitors[i].y)
                        || CoveredByOther(monitors, i, CornerX(monitors[i], rtl), monitors[i].y - 1))
  {
    var monitor := monitors[i];
    var besideX, besideY := BesideX(monitor, rtl), monitor.y;
    var aboveX, aboveY := CornerX(monitor, rtl), monitor.y - 1;
    have := true;
    var j := 0;
    while j < |monitors|
      invariant 0 <= j <= |monitors|
      invariant forall k :: 0 <= k < j && k != i ==>
        !InMonitor(monitors[k], besideX, besideY) && !InMonitor(monitors[k], aboveX, aboveY)
    {
      if i == j {
        j := j + 1;
        continue;
      }
      var other := monitors[j];
      if besideX >= other.x && besideX < other.x + other.width
         && besideY >= other.y && besideY < other.y + other.height {
        assert InMonitor(monitors[j], besideX, besideY);
        return false;
      }
      if aboveX >= other.x && aboveX < other.x + other.width
         && aboveY >= other.y && aboveY < other.y + other.height {
        assert InMonitor(monitors[j], aboveX, aboveY);
        return false;
      }
      j := j + 1;
    }
  }

  /**
   * Rebuilds the hot corners: none when they are turned off; otherwise one
   * entry per monitor, in monitor order, holding the corner or nothing.
   */
  method UpdateHotCorners(monitors: seq<Monitor>, panels: seq<PanelGeometry>, primaryIndex: int, rtl: bool,
                          force: bool, globalKey: Option<bool>, interfaceSetting: Option<bool>,
                          shellPanelSize: int) returns (corners: seq<Option<Corner>>)
    ensures corners == HotCornerList(monitors, panels, primaryIndex, rtl, force, globalKey, interfaceSetting,
                                     shellPanelSize)
  {
    corners := [];
    if !HotCornersEnabled(globalKey, interfaceSetting) {
      return;
    }
    var i := 0;
    while i < |monitors|
      invariant 0 <= i <= |monitors|
      invariant |corners| == i
      invariant forall k :: 0 <= k < i ==>
        corners[k] == HotCornerAt(monitors, panels, k, primaryIndex, rtl, force, shellPanelSize)
    {
      var panel := GeometryOn(panels, i);
      var panelTopLeft := panel.Some? && (panel.value.position == Top || panel.value.position == Left);
      var monitor := monitors[i];
      var have := true;
      if i != primaryIndex || (!panelTopLeft && !force) {
        have := HasTopLeftCorner(monitors, i, rtl);
      }
      if have {
        corners := corners + [Some(Corner(i, CornerX(monitor, rtl), monitor.y, BarrierSize(panels, i, shellPanelSize)))];
      } else {
        corners := corners + [None];
      }
      i := i + 1;
    }
  }

  /** Turned off, there are no hot corners; turned on, one entry per monitor. */
  lemma HotCornerListShape(monitors: seq<Monitor>, panels: seq<PanelGeometry>, primaryIndex: int, rtl: bool,
                           force: bool, globalKey: Option<bool>, interfaceSetting: Option<bool>,
                           shellPanelSize: int)
    ensures var r := HotCornerList(monitors, panels, primaryIndex, rtl, force, globalKey, interfaceSetting,
                                   shellPanelSize);
      && (!HotCornersEnabled(globalKey, interfaceSetting) ==> r == [])
      && (HotCornersEnabled(globalKey, interfaceSetting) ==> (|r| == |monitors| &&
            forall i :: 0 <= i < |r| && r[i].Some? ==> r[i].value.monitor == i && r[i].value.y == monitors[i].y))
  {
  }

  /** The primary monitor with a top or left panel, or with the force setting, always gets its corner. */
  lemma PrimaryCornerKept(monitors: seq<Monitor>, panels: seq<PanelGeometry>, primaryIndex: nat, rtl: bool,
                          force: bool, shellPanelSize: int)
    requires primaryIndex < |monitors|
    requires PanelTopLeft(panels, primaryIndex) || force
    ensures HotCornerAt(monitors, panels, primaryIndex, primaryIndex, rtl, force, shellPanelSize).Some?
  {
  }

  /**
   * In a left-to-right layout, any other monitor that contains the pixel
   * left of a non-primary monitor's corner removes that corner.
   */
  lemma LeftNeighbourRemovesCorner(monitors: seq<Monitor>, panels: seq<PanelGeometry>, i: nat, j: nat,
                                   primaryIndex: int, force: bool, shellPanelSize: int)
    requires i < |monitors| && j < |monitors| && i != j && i != primaryIndex
    requires InMonitor(monitors[j], monitors[i].x - 1, monitors[i].y)
    ensures HotCornerAt(monitors, panels, i, primaryIndex, false, force, shellPanelSize).None?
  {
    assert CoveredByOther(monitors, i, BesideX(monitors[i], false), monitors[i].y);
  }

  /**
   * The corner of a monitor with no monitor touching it from the left or
   * from above is kept.
   */
  lemma IsolatedMonitorKeepsCorner(monitors: seq<Monitor>, panels: seq<PanelGeometry>, i: nat,
                                   primaryIndex: int, force: bool, shellPanelSize: int)
    requires i < |monitors|
    requires forall j :: 0 <= j < |monitors| && j != i ==>
      !InMonitor(monitors[j], monitors[i].x - 1, monitors[i].y) && !InMonitor(monitors[j], monitors[i].x, monitors[i].y - 1)
    ensures HotCornerAt(monitors, panels, i, primaryIndex, false, force, shellPanelSize)
      == Some(Corner(i, monitors[i].x, monitors[i].y, BarrierSize(panels, i, shellPanelSize)))
  {
  }

  /**
   * In a right-to-left layout the point tested beside the corner lies just
   * inside the monitor's own left edge, so for monitors that do not overlap
   * only a monitor above can remove the corner.
   */
  lemma RtlBesidePointIsOwnPixel(monitors: seq<Monitor>, i: nat)
    requires i < |monitors| && monitors[i].width > 1 && monitors[i].height > 0
    ensures InMonitor(monitors[i], BesideX(monitors[i], true), monitors[i].y)
  {
  }
}
