/**
 * The panel manager: which panels exist (one on the chosen primary monitor,
 * plus one per other monitor in multi-monitor mode), the desktop-icon
 * margins the panels reserve, the height clamp of popups opened from a
 * panel, the correction of the native top bar to the work area, and the
 * visibility switch of the overview's primary workspace view.
 *
 * Monitors are identified by their position in the layout manager's
 * monitor list, which is also their index.
 */
module PanelManager {
  import opened Wrappers

  datatype Monitor = Monitor(x: int, y: int, width: int, height: int)

  datatype WorkArea = WorkArea(x: int, y: int, width: int, height: int)

  /** A panel as the manager creates it: its monitor and whether it is
      standalone (true for every panel but the primary one, whose flag is the
      keep-top-panel setting). */
  datatype PanelSpec = PanelSpec(monitor: nat, standalone: bool)

  /** The monitor the panels treat as primary: the configured index when it
      names a monitor, otherwise the layout manager's primary monitor. */
  function PrimaryMonitor(nMonitors: nat, configured: int, systemPrimary: Option<nat>): (m: Option<nat>)
    ensures 0 <= configured < nMonitors ==> m == Some(configured)
    ensures !(0 <= configured < nMonitors) ==> m == systemPrimary
  {
    if 0 <= configured < nMonitors then Some(configured) else systemPrimary
  }

  /** Standalone panels for the monitors below `n` other than the primary, in monitor order. */
  function OtherPanels(n: nat, primary: Option<nat>): seq<PanelSpec>
  {
    if n == 0 then []
    else OtherPanels(n - 1, primary) + (if primary == Some(n - 1) then [] else [PanelSpec(n - 1, true)])
  }

  /** The panels `enable` creates, in creation order. */
  function PanelSet(nMonitors: nat, primary: Option<nat>, keepTopPanel: bool, multiMonitors: bool): seq<PanelSpec>
  {
    (if primary.Some? then [PanelSpec(primary.value, keepTopPanel)] else [])
    + (if multiMonitors then OtherPanels(nMonitors, primary) else [])
  }

  /** The monitors of a list of panels, in order. */
  function MonitorsOf(panels: seq<PanelSpec>): (r: seq<nat>)
    ensures |r| == |panels| && forall i :: 0 <= i < |panels| ==> r[i] == panels[i].monitor
  {
    seq(|panels|, i requires 0 <= i < |panels| => panels[i].monitor)
  }

  /** Standalone panels on monitors below `n` other than the primary, in
      strictly increasing monitor order. */
  predicate StandaloneAscending(r: seq<PanelSpec>, n: nat, primary: Option<nat>)
  {
    && (forall i :: 0 <= i < |r| ==> r[i].standalone && r[i].monitor < n && Some(r[i].monitor) != primary)
    && (forall i, j :: 0 <= i < j < |r| ==> r[i].monitor < r[j].monitor)
  }

  /** The other panels are standalone, on monitors below `n` other than the
      primary, in strictly increasing monitor order. */
  lemma {:induction false} OtherPanelsOrdered(n: nat, primary: Option<nat>)
    ensures StandaloneAscending(OtherPanels(n, primary), n, primary)
  {
    if n > 0 {
      OtherPanelsOrdered(n - 1, primary);
      var init := OtherPanels(n - 1, primary);
      var r := OtherPanels(n, primary);
      if primary == Some(n - 1) {
        assert r == init;
      } else {
        assert r == init + [PanelSpec(n - 1, true)];
      }
    }
  }

  /** Every monitor below `n` other than the primary has one of the other
      panels, and there are as many of them as such monitors. */
  lemma {:induction false} OtherPanelsCover(n: nat, primary: Option<nat>)
    ensures var r := OtherPanels(n, primary);
      && (forall m :: 0 <= m < n && Some(m) != primary ==> m in MonitorsOf(r))
      && |r| == (if primary.Some? && primary.value < n then n - 1 else n)
  {
    if n > 0 {
      OtherPanelsCover(n - 1, primary);
      var init := OtherPanels(n - 1, primary);
      var r := OtherPanels(n, primary);
      assert MonitorsOf(init) <= MonitorsOf(r);
      if primary != Some(n - 1) {
        assert MonitorsOf(r)[|r| - 1] == n - 1;
      }
    }
  }

  /**
   * The panel set: the primary panel first (standalone only when the top
   * bar is kept), then in multi-monitor mode one standalone panel for every
   * other monitor; no monitor gets two panels. With a primary monitor there
   * is one panel per monitor in multi-monitor mode and a single panel
   * otherwise.
   */
  lemma PanelSetShape(nMonitors: nat, primary: Option<nat>, keepTopPanel: bool, multiMonitors: bool)
    requires primary.Some? ==> primary.value < nMonitors
    ensures var r := PanelSet(nMonitors, primary, keepTopPanel, multiMonitors);
      && (primary.Some? ==> |r| > 0 && r[0] == PanelSpec(primary.value, keepTopPanel))
      && |r| == (if multiMonitors then nMonitors else if primary.Some? then 1 else 0)
      && (forall i :: 0 <= i < |r| ==> r[i].monitor < nMonitors)
      && (forall i, j :: 0 <= i < j < |r| ==> r[i].monitor != r[j].monitor)
      && (multiMonitors ==> forall m :: 0 <= m < nMonitors ==> m in MonitorsOf(r))
  {
    OtherPanelsOrdered(nMonitors, primary);
    OtherPanelsCover(nMonitors, primary);
    var head := if primary.Some? then [PanelSpec(primary.value, keepTopPanel)] else [];
    var tail := if multiMonitors then OtherPanels(nMonitors, primary) else [];
    assert PanelSet(nMonitors, primary, keepTopPanel, multiMonitors) == head + tail;
    PrimaryThenOthers(head, tail, nMonitors, primary);
  }

  /** The primary panel followed by panels on other monitors in ascending order
      puts no two panels on one monitor, and adds the primary to the monitors covered. */
  lemma PrimaryThenOthers(head: seq<PanelSpec>, tail: seq<PanelSpec>, n: nat, primary: Option<nat>)
    requires |head| <= 1 && (|head| == 1 <==> primary.Some?)
    requires |head| == 1 ==> head[0].monitor == primary.value && primary.value < n
    requires StandaloneAscending(tail, n, primary)
    ensures var r := head + tail;
      && (forall i :: 0 <= i < |r| ==> r[i].monitor < n)
      && (forall i, j :: 0 <= i < j < |r| ==> r[i].monitor != r[j].monitor)
      && (forall m :: m in MonitorsOf(tail) ==> m in MonitorsOf(r))
      && (primary.Some? ==> primary.value in MonitorsOf(r))
  {
    var r := head + tail;
    forall i, j | 0 <= i < j < |r| ensures r[i].monitor != r[j].monitor {
      assert r[j] == tail[j - |head|];
      if i >= |head| {
        assert r[i] == tail[i - |head|];
      }
    }
    forall m | m in MonitorsOf(tail) ensures m in MonitorsOf(r) {
      var k :| 0 <= k < |tail| && MonitorsOf(tail)[k] == m;
      assert MonitorsOf(r)[k + |head|] == m;
    }
    if primary.Some? {
      assert MonitorsOf(r)[0] == primary.value;
    }
  }

  /** The first panel on `monitor`, if any. */
  function PanelOn(panels: seq<PanelSpec>, monitor: nat): (p: Option<PanelSpec>)
    ensures p.Some? ==> p.value in panels && p.value.monitor == monitor
    ensures p.None? ==> forall i :: 0 <= i < |panels| ==> panels[i].monitor != monitor
  {
    if panels == [] then None
    else if panels[0].monitor == monitor then Some(panels[0])
    else PanelOn(panels[1..], monitor)
  }

  /** The box of the native top bar: position and width (its height stays natural). */
  datatype PanelBox = PanelBox(x: int, y: int, width: int)

  class PanelManager {
    var allPanels: seq<PanelSpec>
    var primaryMonitor: Option<nat>
    var focusedMonitorPanel: Option<PanelSpec>
    /** An idle update of the top bar is pending. */
    var topPanelBoxUpdateQueued: bool
    var panelBox: PanelBox

    constructor (panelBox: PanelBox)
      ensures allPanels == [] && primaryMonitor.None? && focusedMonitorPanel.None?
      ensures !topPanelBoxUpdateQueued && this.panelBox == panelBox
    {
      allPanels := [];
      primaryMonitor := None;
      focusedMonitorPanel := None;
      topPanelBoxUpdateQueued := false;
      this.panelBox := panelBox;
    }

    /**
     * Builds the panel set: the primary monitor is the configured one when
     * it exists, else the layout manager's primary; it gets the first panel
     * and becomes the focused monitor; in multi-monitor mode every other
     * monitor gets a standalone panel, in monitor order.
     */
    method Enable(monitors: seq<Monitor>, configured: int, systemPrimary: Option<nat>,
                  keepTopPanel: bool, multiMonitors: bool)
      requires systemPrimary.Some? ==> systemPrimary.value < |monitors|
      modifies this`allPanels, this`primaryMonitor, this`focusedMonitorPanel
      ensures primaryMonitor == PrimaryMonitor(|monitors|, configured, systemPrimary)
      ensures allPanels == PanelSet(|monitors|, primaryMonitor, keepTopPanel, multiMonitors)
      ensures primaryMonitor.Some? ==> focusedMonitorPanel == Some(PanelSpec(primaryMonitor.value, keepTopPanel))
      ensures primaryMonitor.None? ==> focusedMonitorPanel == old(focusedMonitorPanel)
    {
      allPanels := [];
      primaryMonitor := PrimaryMonitor(|monitors|, configured, systemPrimary);
      if primaryMonitor.Some? {
        allPanels := allPanels + [PanelSpec(primaryMonitor.value, keepTopPanel)];
        SetFocusedMonitor(primaryMonitor.value);
      }
      if multiMonitors {
        var panels := allPanels;
        var m := 0;
        while m < |monitors|
          invariant 0 <= m <= |monitors|
          invariant panels == allPanels + OtherPanels(m, primaryMonitor)
        {
          if primaryMonitor != Some(m) {
            panels := panels + [PanelSpec(m, true)];
          }
          m := m + 1;
        }
        allPanels := panels;
      }
    }

    /** Remembers the first panel on the focused monitor (none when it has no panel). */
    method SetFocusedMonitor(monitor: nat)
      modifies this`focusedMonitorPanel
      ensures focusedMonitorPanel == PanelOn(allPanels, monitor)
    {
      focusedMonitorPanel := PanelOn(allPanels, monitor);
    }

    /** Queues one idle update of the top bar; a second request while one is pending is dropped. */
    method QueueUpdateTopPanelBox()
      modifies this`topPanelBoxUpdateQueued
      ensures topPanelBoxUpdateQueued
    {
      if topPanelBoxUpdateQueued {
        return;
      }
      topPanelBoxUpdateQueued := true;
    }

    /** The pending idle update runs: the flag is cleared, then the bar is corrected. */
    method RunQueuedTopPanelBoxUpdate(parentIsUiGroup: bool, primary: Option<Monitor>, workArea: Option<WorkArea>)
      requires topPanelBoxUpdateQueued
      modifies this`topPanelBoxUpdateQueued, this`panelBox
      ensures !topPanelBoxUpdateQueued
      ensures panelBox == CorrectedPanelBox(old(panelBox), parentIsUiGroup, primary, workArea)
    {
      topPanelBoxUpdateQueued := false;
      UpdateTopPanelBoxFromWorkArea(parentIsUiGroup, primary, workArea);
    }

    /**
     * Moves the native top bar to the work area's left edge and width, at
     * the top of the primary monitor; does nothing when the bar has been
     * taken out of the layout manager's group, or the primary monitor or its
     * work area is unknown.
     */
    method UpdateTopPanelBoxFromWorkArea(parentIsUiGroup: bool, primary: Option<Monitor>, workArea: Option<WorkArea>)
      modifies this`panelBox
      ensures panelBox == CorrectedPanelBox(old(panelBox), parentIsUiGroup, primary, workArea)
    {
      if !parentIsUiGroup {
        return;
      }
      if primary.None? {
        return;
      }
      if workArea.None? {
        return;
      }
      panelBox := PanelBox(workArea.value.x, primary.value.y, workArea.value.width);
    }
  }

  /** The top bar after a correction. */
  function CorrectedPanelBox(box: PanelBox, parentIsUiGroup: bool, primary: Option<Monitor>,
                             workArea: Option<WorkArea>): (r: PanelBox)
    ensures !parentIsUiGroup || primary.None? || workArea.None? ==> r == box
    ensures parentIsUiGroup && primary.Some? && workArea.Some? ==>
      r.x == workArea.value.x && r.width == workArea.value.width && r.y == primary.value.y
  {
    if parentIsUiGroup && primary.Some? && workArea.Some?
    then PanelBox(workArea.value.x, primary.value.y, workArea.value.width)
    else box
  }

  /** Correcting twice is correcting once. */
  lemma CorrectionIdempotent(box: PanelBox, parentIsUiGroup: bool, primary: Option<Monitor>, workArea: Option<WorkArea>)
    ensures var once := CorrectedPanelBox(box, parentIsUiGroup, primary, workArea);
      CorrectedPanelBox(once, parentIsUiGroup, primary, workArea) == once
  {
  }

  /** The screen edge a panel sits on. */
  datatype Side = Top | Bottom | Left | Right

  /** A panel's geometry as computed by the panel itself. */
  datatype PanelGeometry = PanelGeometry(monitor: nat, position: Side, outerSize: int, innerSize: int)

  /** The margins one panel reserves for desktop icons on its monitor. */
  datatype Margins = Margins(monitor: nat, top: int, bottom: int, left: int, right: int)

  /** A panel reserves its outer size on its own edge and nothing on the other three. */
  function PanelMargins(p: PanelGeometry): (m: Margins)
    ensures m.monitor == p.monitor
    ensures m.top == (if p.position == Top then p.outerSize else 0)
    ensures m.bottom == (if p.position == Bottom then p.outerSize else 0)
    ensures m.left == (if p.position == Left then p.outerSize else 0)
    ensures m.right == (if p.position == Right then p.outerSize else 0)
  {
    match p.position
    case Top => Margins(p.monitor, p.outerSize, 0, 0, 0)
    case Bottom => Margins(p.monitor, 0, p.outerSize, 0, 0)
    case Left => Margins(p.monitor, 0, 0, p.outerSize, 0)
    case Right => Margins(p.monitor, 0, 0, 0, p.outerSize)
  }

  /**
   * The margins set on the desktop-icons usable area after it is reset:
   * one call per panel, in panel order; none when there is no usable area.
   */
  function DesktopIconsMargins(hasUsableArea: bool, panels: seq<PanelGeometry>): (r: Option<seq<Margins>>)
    ensures r.Some? <==> hasUsableArea
    ensures r.Some? ==> (|r.value| == |panels| &&
      forall i :: 0 <= i < |panels| ==> r.value[i] == PanelMargins(panels[i]))
  {
    if hasUsableArea then Some(seq(|panels|, i requires 0 <= i < |panels| => PanelMargins(panels[i]))) else None
  }

  /** The margin calls as the panels are visited in order, one call each. */
  method SetDesktopIconsMargins(hasUsableArea: bool, panels: seq<PanelGeometry>) returns (calls: Option<seq<Margins>>)
    ensures calls == DesktopIconsMargins(hasUsableArea, panels)
  {
    if !hasUsableArea {
      return None;
    }
    var made: seq<Margins> := [];
    for i := 0 to |panels|
      invariant made == seq(i, k requires 0 <= k < i => PanelMargins(panels[k]))
    {
      made := made + [PanelMargins(panels[i])];
    }
    return Some(made);
  }

  /** Exactly one side of every margin call is non-zero, unless the panel has no size. */
  lemma MarginsOneSide(p: PanelGeometry)
    ensures var m := PanelMargins(p);
      m.top + m.bottom + m.left + m.right == p.outerSize &&
      (m.top == 0 || m.bottom == m.left == m.right == 0) &&
      (m.bottom == 0 || m.top == m.left == m.right == 0) &&
      (m.left == 0 || m.top == m.bottom == m.right == 0)
  {
  }

  /** The first panel geometry on `monitor`, if any. */
  function GeometryOn(panels: seq<PanelGeometry>, monitor: nat): (p: Option<PanelGeometry>)
    ensures p.Some? ==> p.value in panels && p.value.monitor == monitor
    ensures p.None? ==> forall i :: 0 <= i < |panels| ==> panels[i].monitor != monitor
    ensures p.Some? ==> exists k :: (0 <= k < |panels| && panels[k] == p.value &&
      forall j :: 0 <= j < k ==> panels[j].monitor != monitor)
  {
    if panels == [] then None
    else if panels[0].monitor == monitor then Some(panels[0])
    else
      var p := GeometryOn(panels[1..], monitor);
      if p.Some? then
        var k :| (0 <= k < |panels[1..]| && panels[1..][k] == p.value &&
          forall j :: 0 <= j < k ==> panels[1..][j].monitor != monitor);
        assert panels[k + 1] == p.value;
        assert forall j :: 1 <= j < k + 1 ==> panels[j] == panels[1..][j - 1];
        p
      else p
  }

  /** The popup sizes a panel popup asks for: minimum and natural. */
  datatype SizeRequest = SizeRequest(minSize: int, naturalSize: int)

  /** The popup is in a panel, has a source actor, and intellihide is on. */
  predicate ClampApplies(inPanel: bool, hasSourceActor: bool, intellihide: bool)
  {
    inPanel && hasSourceActor && intellihide
  }

  /**
   * The height a popup opened from a panel may ask for: with intellihide,
   * its natural height is cut so that it fits above the panel with a 10
   * pixel gap; the minimum height is never changed. None when the monitor
   * has no panel, where the lookup of the panel's size fails.
   */
  function PopupPreferredHeight(inPanel: bool, hasSourceActor: bool, intellihide: bool,
                                alloc: SizeRequest, monitor: nat, monitorHeight: int,
                                panels: seq<PanelGeometry>): (r: Option<SizeRequest>)
    ensures !ClampApplies(inPanel, hasSourceActor, intellihide) ==> r == Some(alloc)
    ensures ClampApplies(inPanel, hasSourceActor, intellihide) ==>
      (r.None? <==> GeometryOn(panels, monitor).None?)
    ensures r.Some? ==> r.value.minSize == alloc.minSize && r.value.naturalSize <= alloc.naturalSize
    ensures r.Some? && ClampApplies(inPanel, hasSourceActor, intellihide) ==>
      var limit := monitorHeight - GeometryOn(panels, monitor).value.outerSize - 10;
      r.value.naturalSize == (if alloc.naturalSize <= limit then alloc.naturalSize else limit)
  {
    if !ClampApplies(inPanel, hasSourceActor, intellihide) then Some(alloc)
    else
      var panel := GeometryOn(panels, monitor);
      if panel.None? then None
      else
        var excess := alloc.naturalSize + panel.value.outerSize + 10 - monitorHeight;
        if excess > 0 then Some(alloc.(naturalSize := alloc.naturalSize - excess)) else Some(alloc)
  }

  /** A clamped popup fits above its panel with the gap: natural height plus
      panel size plus 10 never exceeds the monitor height after clamping. */
  lemma PopupFitsAbovePanel(alloc: SizeRequest, monitor: nat, monitorHeight: int, panels: seq<PanelGeometry>)
    requires GeometryOn(panels, monitor).Some?
    ensures var r := PopupPreferredHeight(true, true, true, alloc, monitor, monitorHeight, panels);
      r.Some? && r.value.naturalSize + GeometryOn(panels, monitor).value.outerSize + 10 <= monitorHeight
  {
  }

  /**
   * The overview's workspaces display, as far as the primary workspace
   * view's visibility goes: the remembered flag, the primary index and the
   * visibility of each monitor's view. The views take the flag only when
   * they are rebuilt or when the flag changes; moving the primary index
   * touches no view, so the primary's view can disagree with the flag.
   */
  class WorkspacesDisplay {
    var primaryVisible: bool
    var primaryIndex: int
    var viewVisible: seq<bool>

    /** The primary monitor's view, if there is one, shows the remembered flag. */
    predicate PrimaryViewInSync()
      reads this
    {
      0 <= primaryIndex < |viewVisible| ==> viewVisible[primaryIndex] == primaryVisible
    }

    constructor (primaryIndex: int, viewVisible: seq<bool>, primaryVisible: bool)
      ensures this.primaryIndex == primaryIndex && this.viewVisible == viewVisible
      ensures this.primaryVisible == primaryVisible
    {
      this.primaryVisible := primaryVisible;
      this.primaryIndex := primaryIndex;
      this.viewVisible := viewVisible;
    }

    /**
     * Rebuilds one view per monitor: the primary's view takes the
     * remembered flag, the secondary displays start visible.
     */
    method UpdateWorkspacesViews(nMonitors: nat)
      modifies this`viewVisible
      ensures |viewVisible| == nMonitors
      ensures forall i :: 0 <= i < nMonitors ==> viewVisible[i] == (i != primaryIndex || primaryVisible)
      ensures PrimaryViewInSync()
    {
      var views: seq<bool> := [];
      for i := 0 to nMonitors
        invariant |views| == i
        invariant forall k :: 0 <= k < i ==> views[k] == (k != primaryIndex || primaryVisible)
      {
        if i == primaryIndex {
          views := views + [primaryVisible];
        } else {
          views := views + [true];
        }
      }
      viewVisible := views;
    }

    /** Focusing another monitor moves the primary index and leaves every view as it is. */
    method MovePrimary(index: int)
      modifies this`primaryIndex
      ensures primaryIndex == index && viewVisible == old(viewVisible) && primaryVisible == old(primaryVisible)
    {
      primaryIndex := index;
    }

    /**
     * Shows or hides the primary monitor's view. A request equal to the
     * remembered flag returns at once, even when the view disagrees with it.
     */
    method SetPrimaryWorkspaceVisible(visible: bool)
      modifies this`primaryVisible, this`viewVisible
      ensures primaryVisible == visible
      ensures old(primaryVisible) == visible ==> viewVisible == old(viewVisible)
      ensures old(primaryVisible) != visible ==>
        viewVisible == if 0 <= primaryIndex < |old(viewVisible)| then old(viewVisible)[primaryIndex := visible]
                       else old(viewVisible)
      ensures old(primaryVisible) != visible || old(PrimaryViewInSync()) ==> PrimaryViewInSync()
    {
      if primaryVisible == visible {
        return;
      }
      primaryVisible := visible;
      if 0 <= primaryIndex < |viewVisible| {
        viewVisible := viewVisible[primaryIndex := visible];
      }
    }
  }

  /**
   * With the primary view hidden, focusing a second monitor whose view is
   * visible and then hiding the primary view again leaves that monitor's
   * view visible: the repeated request returns before touching it.
   */
  method StalePrimaryView() returns (stillVisible: bool)
    ensures stillVisible
  {
    var display := new WorkspacesDisplay(0, [true, true], true);
    display.SetPrimaryWorkspaceVisible(false);
    display.MovePrimary(1);
    display.SetPrimaryWorkspaceVisible(false);
    stillVisible := display.viewVisible[1] && !display.primaryVisible && display.primaryIndex == 1;
  }
}
