/**
 * The workspace preview strip of a panel: one preview item per workspace,
 * each bound to a workspace object and to its index. Changes of the
 * workspace count are followed cheaply by popping or appending items at the
 * end; when a surviving item turns out to be bound to another workspace
 * than the one now at its index, the strip falls back to a full rebuild,
 * guarded by a flag so that a rebuild never triggers another one. The strip
 * also owns the per-workspace icon-ordering tables, the focused-icon
 * tracker and the icon drag record.
 */
module WorkspacePreview {
  import opened Wrappers
  import opened StableSort
  import opened AppIconOrder
  import opened IconDrag

  /** Identity of a workspace object of the window manager. */
  datatype WsId = WsId(id: nat)

  /**
   * The window manager's workspace list: its reported count and the
   * workspace object at each index (an index without an entry answers null).
   */
  datatype WorkspaceManager = WorkspaceManager(nWorkspaces: int, byIndex: map<int, WsId>)

  function WorkspaceAt(wm: WorkspaceManager, i: int): Option<WsId>
  {
    if i in wm.byIndex then Some(wm.byIndex[i]) else None
  }

  /** The largest count the incremental path follows. */
  const MAX_INCREMENTAL_WORKSPACES := 64

  /** A preview item: creation serial (object identity), bound workspace, index. */
  datatype PreviewItem = PreviewItem(serial: nat, ws: Option<WsId>, index: int)

  function Max(a: int, b: int): int { if a < b then b else a }
  function Min(a: int, b: int): int { if a < b then a else b }

  /** The items a full rebuild creates: one per workspace, bound to whatever the
      manager reports at that index, with fresh serials from `serial0` on. */
  function Rebuilt(wm: WorkspaceManager, serial0: nat): (r: seq<PreviewItem>)
    ensures |r| == Max(0, wm.nWorkspaces)
    ensures forall i :: 0 <= i < |r| ==> r[i].index == i && r[i].ws == WorkspaceAt(wm, i)
    ensures forall i :: 0 <= i < |r| ==> r[i].serial == serial0 + i
  {
    seq(Max(0, wm.nWorkspaces), i requires 0 <= i => PreviewItem(serial0 + i, WorkspaceAt(wm, i), i))
  }

  /**
   * The binding check: every index both lists share has a workspace, and
   * no item there is bound to a different workspace (items bound to no
   * workspace are not questioned).
   */
  predicate BindingsHold(items: seq<PreviewItem>, wm: WorkspaceManager)
  {
    forall i :: 0 <= i < Min(|items|, wm.nWorkspaces) ==>
      WorkspaceAt(wm, i).Some? && (items[i].ws.Some? ==> items[i].ws == WorkspaceAt(wm, i))
  }

  /** The cheap path of a sync applies: the count is in range, the bindings
      hold, and every workspace to append exists. */
  predicate IncrementalApplies(items: seq<PreviewItem>, wm: WorkspaceManager)
  {
    && 0 <= wm.nWorkspaces <= MAX_INCREMENTAL_WORKSPACES
    && BindingsHold(items, wm)
    && forall i :: |items| <= i < wm.nWorkspaces ==> WorkspaceAt(wm, i).Some?
  }

  /** What a sync establishes: one item per workspace, indices equal to
      positions, and every bound item bound to the workspace at its index. */
  predicate Agrees(items: seq<PreviewItem>, wm: WorkspaceManager)
  {
    && |items| == Max(0, wm.nWorkspaces)
    && forall i :: 0 <= i < |items| ==>
         items[i].index == i && (items[i].ws.Some? ==> items[i].ws == WorkspaceAt(wm, i))
  }

  /** Serials strictly increase along the list, so no two items are the same object. */
  predicate SerialsIncrease(items: seq<PreviewItem>)
  {
    forall i, j :: 0 <= i < j < |items| ==> items[i].serial < items[j].serial
  }

  /** The item references a drag snapshot is taken from. */
  function Refs(items: seq<PreviewItem>): (r: seq<ItemRef>)
    ensures |r| == |items|
    ensures forall i :: 0 <= i < |r| ==> r[i] == ItemRef(items[i].serial, items[i].index)
  {
    seq(|items|, i requires 0 <= i < |items| => ItemRef(items[i].serial, items[i].index))
  }

  /** The icon the focus tracker remembers: a workspace index and an application. */
  datatype FocusKey = FocusKey(wsIndex: int, appId: string)

  /** The focused window as the tracker sees it: its workspace's index and its
      application id, each possibly unknown. */
  datatype FocusWindow = FocusWindow(wsIndex: Option<int>, appId: Option<string>)

  /** The key of the focused window: present when both parts are known and the id is not empty. */
  function FocusKeyOf(fw: Option<FocusWindow>): (k: Option<FocusKey>)
    ensures k.Some? <==> fw.Some? && fw.value.wsIndex.Some? && fw.value.appId.Some? && fw.value.appId.value != ""
    ensures k.Some? ==> k.value == FocusKey(fw.value.wsIndex.value, fw.value.appId.value)
  {
    if fw.Some? && fw.value.wsIndex.Some? && fw.value.appId.Some? && fw.value.appId.value != ""
    then Some(FocusKey(fw.value.wsIndex.value, fw.value.appId.value))
    else None
  }

  /** The icons a focus change refreshes and the key remembered afterwards. */
  datatype FocusUpdate = FocusUpdate(refresh: seq<FocusKey>, last: Option<FocusKey>)

  /** The key, when it names an existing item. */
  function Present(k: Option<FocusKey>, nItems: int): seq<FocusKey>
  {
    if k.Some? && 0 <= k.value.wsIndex < nItems then [k.value] else []
  }

  /**
   * One focus update: nothing when the focused icon did not change;
   * otherwise the previous icon (to drop its highlight) and then the new one
   * (to gain it), each only when its item exists.
   */
  function FocusStep(prev: Option<FocusKey>, next: Option<FocusKey>, nItems: int): (u: FocusUpdate)
    ensures u.last == next
    ensures prev.Some? && prev == next ==> u.refresh == []
    ensures |u.refresh| <= 2
    ensures forall i :: 0 <= i < |u.refresh| ==>
      (Some(u.refresh[i]) == prev || Some(u.refresh[i]) == next) && 0 <= u.refresh[i].wsIndex < nItems
    ensures prev != next && prev.Some? && 0 <= prev.value.wsIndex < nItems ==>
      |u.refresh| > 0 && u.refresh[0] == prev.value
    ensures prev != next && next.Some? && 0 <= next.value.wsIndex < nItems ==>
      |u.refresh| > 0 && u.refresh[|u.refresh| - 1] == next.value
  {
    if prev.Some? && next.Some? && prev == next then FocusUpdate([], prev)
    else FocusUpdate(Present(prev, nItems) + Present(next, nItems), next)
  }

  /** Focus updates are idempotent: repeating one with the same focus refreshes nothing. */
  lemma FocusStepIdempotent(prev: Option<FocusKey>, next: Option<FocusKey>, nItems: int)
    ensures FocusStep(FocusStep(prev, next, nItems).last, next, nItems).refresh == []
  {
  }

  /** The ordering table a workspace starts from: its stored table and counter, else empty and 1. */
  function StartState(appOrder: map<int, map<string, nat>>, appOrderNext: map<int, nat>, k: int): OrderState
  {
    OrderState(if k in appOrder then appOrder[k] else map[], if k in appOrderNext then appOrderNext[k] else 1)
  }

  lemma StartStateWellNumbered(appOrder: map<int, map<string, nat>>, appOrderNext: map<int, nat>, k: int)
    requires appOrder.Keys == appOrderNext.Keys
    requires forall j :: j in appOrder ==> WellNumbered(OrderState(appOrder[j], appOrderNext[j]))
    ensures WellNumbered(StartState(appOrder, appOrderNext, k))
  {
  }

  /** A rebuilt strip passes the binding check of the same manager exactly when
      every shared index has a workspace, so it triggers no second rebuild. */
  lemma {:induction false} RebuiltBindingsHold(wm: WorkspaceManager, serial0: nat)
    requires forall i :: 0 <= i < wm.nWorkspaces ==> WorkspaceAt(wm, i).Some?
    ensures BindingsHold(Rebuilt(wm, serial0), wm)
    ensures Agrees(Rebuilt(wm, serial0), wm)
  {
    var r := Rebuilt(wm, serial0);
    forall i | 0 <= i < Min(|r|, wm.nWorkspaces)
      ensures WorkspaceAt(wm, i).Some? && (r[i].ws.Some? ==> r[i].ws == WorkspaceAt(wm, i))
    {
      assert r[i].ws == WorkspaceAt(wm, i);
    }
  }

  /** A strip that agrees with the manager and whose workspaces all exist is a
      fixed point of sync: the cheap path applies and has nothing to add. */
  lemma {:induction false} AgreesIsStable(items: seq<PreviewItem>, wm: WorkspaceManager)
    requires Agrees(items, wm) && 0 <= wm.nWorkspaces <= MAX_INCREMENTAL_WORKSPACES
    requires forall i :: 0 <= i < wm.nWorkspaces ==> WorkspaceAt(wm, i).Some?
    ensures IncrementalApplies(items, wm) && |items| == wm.nWorkspaces
  {
    forall i | 0 <= i < Min(|items|, wm.nWorkspaces)
      ensures WorkspaceAt(wm, i).Some? && (items[i].ws.Some? ==> items[i].ws == WorkspaceAt(wm, i))
    {
      assert items[i].index == i;
    }
  }

  /** Every item from position `from` on is new (serial at least `serial0`)
      and bound to the workspace at its index. */
  predicate FreshFrom(items: seq<PreviewItem>, from: int, wm: WorkspaceManager, serial0: nat)
  {
    forall i :: from <= i < |items| && 0 <= i ==>
      items[i].serial >= serial0 && items[i].ws == WorkspaceAt(wm, i)
  }

  /** The items both lists share are the same objects with the same bindings. */
  predicate KeepsPrefix(before: seq<PreviewItem>, after: seq<PreviewItem>, wm: WorkspaceManager)
  {
    var n := Min(|before|, wm.nWorkspaces);
    0 <= n <= |after| && n <= |before| && after[..n] == before[..n]
  }

  lemma RebuiltFresh(wm: WorkspaceManager, serial0: nat)
    ensures FreshFrom(Rebuilt(wm, serial0), 0, wm, serial0)
  {
  }

  /** Pops items off the end until `desired` remain. */
  method PopTo(list: seq<PreviewItem>, desired: nat) returns (r: seq<PreviewItem>)
    requires desired <= |list|
    ensures r == list[..desired]
  {
    r := list;
    while |r| > desired
      invariant desired <= |r| <= |list|
      invariant r == list[..|r|]
    {
      r := r[..|r| - 1];
    }
  }

  /**
   * Appends an item for every workspace from `|list|` up to the manager's
   * count, each bound to its workspace, with serials from `serial0` on;
   * stops with `missing` at the first index without a workspace.
   */
  method AppendItems(list: seq<PreviewItem>, wm: WorkspaceManager, serial0: nat)
    returns (r: seq<PreviewItem>, serial: nat, missing: bool)
    requires |list| <= wm.nWorkspaces
    requires forall j :: 0 <= j < |list| ==> list[j].serial < serial0
    requires SerialsIncrease(list)
    ensures missing <==> exists i :: |list| <= i < wm.nWorkspaces && WorkspaceAt(wm, i).None?
    ensures !missing ==> |r| == wm.nWorkspaces && r[..|list|] == list
    ensures !missing ==> forall j :: |list| <= j < |r| ==>
      r[j].serial >= serial0 && r[j].ws == WorkspaceAt(wm, j) && r[j].ws.Some?
    ensures !missing ==> SerialsIncrease(r) && serial >= serial0
    ensures !missing ==> forall j :: 0 <= j < |r| ==> r[j].serial < serial
  {
    r, serial, missing := list, serial0, false;
    var i := |list|;
    while i < wm.nWorkspaces
      invariant |list| <= i <= wm.nWorkspaces && |r| == i
      invariant r[..|list|] == list
      invariant forall j :: |list| <= j < i ==> WorkspaceAt(wm, j).Some?
      invariant forall j :: |list| <= j < i ==>
        r[j].serial >= serial0 && r[j].ws == WorkspaceAt(wm, j) && r[j].ws.Some?
      invariant forall j :: 0 <= j < i ==> r[j].serial < serial
      invariant SerialsIncrease(r) && serial >= serial0
    {
      var ws := WorkspaceAt(wm, i);
      if ws.None? {
        return r, serial, true;
      }
      r := r + [PreviewItem(serial, ws, i)];
      serial := serial + 1;
      i := i + 1;
    }
  }

  /** Sets every item's index to its position; nothing else changes. */
  method Renumber(list: seq<PreviewItem>) returns (r: seq<PreviewItem>)
    ensures |r| == |list|
    ensures forall j :: 0 <= j < |r| ==> r[j] == list[j].(index := j)
  {
    r := list;
    var k := 0;
    while k < |r|
      invariant 0 <= k <= |r| == |list|
      invariant forall j :: 0 <= j < k ==> r[j] == list[j].(index := j)
      invariant forall j :: k <= j < |r| ==> r[j] == list[j]
    {
      r := r[k := r[k].(index := k)];
      k := k + 1;
    }
  }

  /**
   * The count change of the cheap path on the item list: surplus items are
   * popped from the end, the missing workspaces appended (stopping with
   * `missing` at the first index without a workspace), and the indices
   * renumbered.
   */
  method ResizeItems(items: seq<PreviewItem>, wm: WorkspaceManager, serial0: nat)
    returns (r: seq<PreviewItem>, serial: nat, missing: bool)
    requires 0 <= wm.nWorkspaces <= MAX_INCREMENTAL_WORKSPACES && BindingsHold(items, wm)
    requires forall i :: 0 <= i < |items| ==> items[i].index == i && items[i].serial < serial0
    requires SerialsIncrease(items)
    ensures missing <==> !IncrementalApplies(items, wm)
    ensures !missing ==> Agrees(r, wm) && KeepsPrefix(items, r, wm) && FreshFrom(r, |items|, wm, serial0)
    ensures !missing ==> SerialsIncrease(r) && serial >= serial0
    ensures !missing ==> forall i :: 0 <= i < |r| ==> r[i].serial < serial
  {
    var desired := wm.nWorkspaces;
    r, serial, missing := items, serial0, false;
    if |items| > desired {
      r := PopTo(items, desired);
    } else if |items| < desired {
      r, serial, missing := AppendItems(items, wm, serial0);
      if missing {
        return;
      }
    }
    r := Renumber(r);
  }

  /** Creates one item per workspace, as a full rebuild does. */
  method CreateItems(wm: WorkspaceManager, serial0: nat) returns (created: seq<PreviewItem>)
    ensures created == Rebuilt(wm, serial0)
  {
    created := [];
    var i := 0;
    while i < wm.nWorkspaces
      invariant 0 <= i <= Max(0, wm.nWorkspaces)
      invariant created == Rebuilt(wm, serial0)[..i]
    {
      created := created + [PreviewItem(serial0 + i, WorkspaceAt(wm, i), i)];
      i := i + 1;
    }
  }

  /** Reduces the windows to one entry per application, in insertion order. */
  method DedupWindows(windows: seq<Window>) returns (es: seq<Entry>)
    ensures es == Dedup(windows)
  {
    es := [];
    for i := 0 to |windows|
      invariant es == Dedup(windows[..i])
    {
      assert windows[..i + 1][..i] == windows[..i];
      es := AddWindow(es, windows[i], i);
    }
    assert windows[..|windows|] == windows;
  }

  /** Numbers the applications not yet in the table from the counter on. */
  method NumberNew(ids: seq<string>, start: OrderState) returns (r: OrderState)
    ensures r == AssignNew(ids, start)
  {
    var ordinals, next := start.ordinals, start.next;
    for i := 0 to |ids|
      invariant OrderState(ordinals, next) == AssignNew(ids[..i], start)
    {
      assert ids[..i + 1][..i] == ids[..i];
      if ids[i] !in ordinals {
        ordinals := ordinals[ids[i] := next];
        next := next + 1;
      }
    }
    assert ids[..|ids|] == ids;
    r := OrderState(ordinals, next);
  }

  /**
   * The stable-order icon list of a workspace whose table is `start`: the
   * table is refreshed with the applications present, and they are sorted
   * by ordinal.
   */
  method StableApps(es: seq<Entry>, start: OrderState) returns (apps: seq<string>, st: OrderState)
    requires WellNumbered(start)
    ensures st == Refresh(Ids(es), start) && WellNumbered(st)
    ensures apps == StableOrder(es, st.ordinals)
  {
    var ids := Ids(es);
    var numbered := NumberNew(ids, start);
    var ordinals := PruneAbsent(numbered.ordinals, ids);
    RefreshWellNumbered(ids, start);
    st := OrderState(ordinals, numbered.next);
    apps := StableOrder(es, ordinals);
  }

  /** Forgets every numbered application that is not among `ids`. */
  method PruneAbsent(ordinals: map<string, nat>, ids: seq<string>) returns (r: map<string, nat>)
    ensures r == Prune(OrderState(ordinals, 0), ids).ordinals
  {
    r := ordinals;
    var pending := ordinals.Keys;
    while pending != {}
      invariant pending <= ordinals.Keys
      invariant forall id :: id in r <==> id in ordinals && (id in pending || id in ids)
      invariant forall id :: id in r ==> r[id] == ordinals[id]
      decreases |pending|
    {
      var id :| id in pending;
      if id !in ids {
        r := r - {id};
      }
      pending := pending - {id};
    }
    assert r == Prune(OrderState(ordinals, 0), ids).ordinals;
  }

  class WorkspacePreviewView {
    /** Whether the strip belongs to a panel (it is detached once destroyed). */
    const hasPanel: bool
    var items: seq<PreviewItem>
    var nextSerial: nat
    var rebuildInProgress: bool
    var lastFocused: Option<FocusKey>
    /** Per workspace index: application id to ordinal, and the next ordinal. */
    var appOrder: map<int, map<string, nat>>
    var appOrderNext: map<int, nat>
    var iconDrag: Option<DragState>
    var dropHighlight: Option<ItemRef>
    /** A geometry refresh has been queued for the next idle cycle. */
    var geometryRefreshPending: bool

    ghost predicate Valid()
      reads this
    {
      && (forall i :: 0 <= i < |items| ==> items[i].index == i && items[i].serial < nextSerial)
      && SerialsIncrease(items)
      && appOrder.Keys == appOrderNext.Keys
      && (forall k :: k in appOrder ==> WellNumbered(OrderState(appOrder[k], appOrderNext[k])))
      && (iconDrag.None? ==> dropHighlight.None?)
    }

    constructor (hasPanel: bool)
      ensures Valid() && this.hasPanel == hasPanel
      ensures items == [] && appOrder == map[] && appOrderNext == map[]
      ensures !rebuildInProgress && lastFocused.None? && iconDrag.None? && !geometryRefreshPending
    {
      this.hasPanel := hasPanel;
      items := [];
      nextSerial := 0;
      rebuildInProgress := false;
      lastFocused := None;
      appOrder := map[];
      appOrderNext := map[];
      iconDrag := None;
      dropHighlight := None;
      geometryRefreshPending := false;
    }

    /** Ends a drag in progress, dropping its highlight; nothing else changes. */
    method CancelIconDrag()
      requires Valid()
      modifies this
      ensures Valid() && iconDrag.None? && dropHighlight.None?
      ensures items == old(items) && nextSerial == old(nextSerial)
      ensures rebuildInProgress == old(rebuildInProgress) && lastFocused == old(lastFocused)
      ensures appOrder == old(appOrder) && appOrderNext == old(appOrderNext)
      ensures geometryRefreshPending == old(geometryRefreshPending)
    {
      if iconDrag.None? {
        return;
      }
      dropHighlight := None;
      iconDrag := None;
    }

    /**
     * Full rebuild. Skipped while a rebuild is in progress. Otherwise the
     * drag is cancelled and every item replaced by a fresh one per workspace,
     * item i bound to what the manager reports at i; the focus tracker is
     * reset and a geometry refresh queued. The ordering tables are kept.
     * Without a workspace manager the source fails after discarding the items
     * and leaves the flag set, which disables later rebuilds.
     */
    method UpdateWorkspaces(wm: Option<WorkspaceManager>)
      requires Valid()
      modifies this
      ensures Valid()
      ensures appOrder == old(appOrder) && appOrderNext == old(appOrderNext)
      ensures old(rebuildInProgress) ==> unchanged(this)
      ensures !old(rebuildInProgress) ==> iconDrag.None? && dropHighlight.None?
      ensures !old(rebuildInProgress) && wm.None? ==>
        items == [] && rebuildInProgress && lastFocused == old(lastFocused) &&
        nextSerial == old(nextSerial) && geometryRefreshPending == old(geometryRefreshPending)
      ensures !old(rebuildInProgress) && wm.Some? ==>
        && items == Rebuilt(wm.value, old(nextSerial))
        && Agrees(items, wm.value)
        && nextSerial == old(nextSerial) + |items|
        && !rebuildInProgress && lastFocused.None? && geometryRefreshPending
    {
      if rebuildInProgress {
        return;
      }
      rebuildInProgress := true;
      CancelIconDrag();
      items := [];
      if wm.None? {
        return;
      }
      var created := CreateItems(wm.value, nextSerial);
      items, nextSerial := created, nextSerial + |created|;
      lastFocused := None;
      rebuildInProgress := false;
      geometryRefreshPending := true;
    }

    /**
     * The binding check run before any cheap update: false while a rebuild
     * is in progress; true without a panel or a workspace manager; otherwise
     * a missing workspace or a rebound item at a shared index triggers a full
     * rebuild and the answer false.
     */
    method EnsureWorkspaceBindings(wm: Option<WorkspaceManager>) returns (ok: bool)
      requires Valid()
      modifies this
      ensures Valid()
      ensures ok <==> !old(rebuildInProgress) && (!hasPanel || wm.None? || BindingsHold(old(items), wm.value))
      ensures ok || old(rebuildInProgress) ==> unchanged(this)
      ensures !ok && !old(rebuildInProgress) ==>
        wm.Some? && items == Rebuilt(wm.value, old(nextSerial)) && Agrees(items, wm.value) &&
        nextSerial == old(nextSerial) + |items| && !rebuildInProgress && lastFocused.None? &&
        iconDrag.None? && dropHighlight.None? && geometryRefreshPending
      ensures appOrder == old(appOrder) && appOrderNext == old(appOrderNext)
    {
      if rebuildInProgress {
        return false;
      }
      if !hasPanel || wm.None? {
        return true;
      }
      var manager := wm.value;
      var n := Min(|items|, manager.nWorkspaces);
      var i := 0;
      while i < n
        invariant 0 <= i <= Max(0, n)
        invariant forall j :: 0 <= j < i ==>
          WorkspaceAt(manager, j).Some? && (items[j].ws.Some? ==> items[j].ws == WorkspaceAt(manager, j))
      {
        var ws := WorkspaceAt(manager, i);
        if ws.None? || (items[i].ws.Some? && items[i].ws != ws) {
          UpdateWorkspaces(wm);
          return false;
        }
        i := i + 1;
      }
      return true;
    }

    /**
     * Incremental sync with the workspace list. Without a panel or manager
     * nothing happens. A count outside [0, 64] forces a full rebuild; so
     * does a failed binding check. Otherwise the count change is applied at
     * the end of the list.
     */
    method SyncWorkspaceItems(wm: Option<WorkspaceManager>)
      requires Valid()
      modifies this
      ensures Valid()
      ensures !hasPanel || wm.None? || old(rebuildInProgress) ==> unchanged(this)
      ensures hasPanel && wm.Some? && !old(rebuildInProgress) ==>
        Agrees(items, wm.value) && !rebuildInProgress && geometryRefreshPending
      ensures hasPanel && wm.Some? && !old(rebuildInProgress) && IncrementalApplies(old(items), wm.value) ==>
        && KeepsPrefix(old(items), items, wm.value)
        && FreshFrom(items, |old(items)|, wm.value, old(nextSerial))
        && lastFocused == old(lastFocused) && iconDrag == old(iconDrag) && dropHighlight == old(dropHighlight)
        && (if |old(items)| > wm.value.nWorkspaces then appOrder == map[] && appOrderNext == map[]
            else appOrder == old(appOrder) && appOrderNext == old(appOrderNext))
      ensures hasPanel && wm.Some? && !old(rebuildInProgress) && !IncrementalApplies(old(items), wm.value) ==>
        && items == Rebuilt(wm.value, old(nextSerial)) && FreshFrom(items, 0, wm.value, old(nextSerial))
        && lastFocused.None? && iconDrag.None? && dropHighlight.None?
        && appOrder == old(appOrder) && appOrderNext == old(appOrderNext)
    {
      if !hasPanel || wm.None? {
        return;
      }
      var desired := wm.value.nWorkspaces;
      if desired < 0 || desired > MAX_INCREMENTAL_WORKSPACES {
        UpdateWorkspaces(wm);
        RebuiltFresh(wm.value, old(nextSerial));
        return;
      }
      var ok := EnsureWorkspaceBindings(wm);
      if !ok {
        if !old(rebuildInProgress) {
          RebuiltFresh(wm.value, old(nextSerial));
        }
        return;
      }
      ApplyCountChange(wm.value);
    }

    /**
     * The cheap path once the bindings hold: surplus items are popped from
     * the end (and the ordering tables cleared, since indices shift), the
     * missing workspaces are appended (a missing one forces a full rebuild),
     * indices are renumbered and a geometry refresh queued.
     */
    method ApplyCountChange(wm: WorkspaceManager)
      requires Valid() && !rebuildInProgress
      requires 0 <= wm.nWorkspaces <= MAX_INCREMENTAL_WORKSPACES && BindingsHold(items, wm)
      modifies this
      ensures Valid() && Agrees(items, wm) && !rebuildInProgress && geometryRefreshPending
      ensures IncrementalApplies(old(items), wm) ==>
        && KeepsPrefix(old(items), items, wm)
        && FreshFrom(items, |old(items)|, wm, old(nextSerial))
        && lastFocused == old(lastFocused) && iconDrag == old(iconDrag) && dropHighlight == old(dropHighlight)
        && (if |old(items)| > wm.nWorkspaces then appOrder == map[] && appOrderNext == map[]
            else appOrder == old(appOrder) && appOrderNext == old(appOrderNext))
      ensures !IncrementalApplies(old(items), wm) ==>
        && items == Rebuilt(wm, old(nextSerial)) && FreshFrom(items, 0, wm, old(nextSerial))
        && lastFocused.None? && iconDrag.None? && dropHighlight.None?
        && appOrder == old(appOrder) && appOrderNext == old(appOrderNext)
    {
      var list, serial, missing := ResizeItems(items, wm, nextSerial);
      if missing {
        UpdateWorkspaces(Some(wm));
        RebuiltFresh(wm, old(nextSerial));
        return;
      }
      if |items| > wm.nWorkspaces {
        appOrder := map[];
        appOrderNext := map[];
      }
      items, nextSerial := list, serial;
      geometryRefreshPending := true;
    }

    /**
     * The applications shown on a workspace's preview, one per application
     * present among its windows. In recency mode they are sorted by last
     * use; in stable mode with a workspace index the workspace's ordering
     * table is refreshed (new applications numbered from its counter, absent
     * ones forgotten) and they are sorted by ordinal; in stable mode without
     * an index they keep the order in which they were first seen. A
     * stable-order setting that cannot be read counts as stable.
     */
    method UniqueAppsFromWindows(windows: seq<Window>, wsIndex: Option<int>, keepStable: Option<bool>)
      returns (apps: seq<string>)
      requires Valid()
      modifies this`appOrder, this`appOrderNext
      ensures Valid()
      ensures !keepStable.GetOr(true) ==>
        apps == Ids(SortBy(Dedup(windows), RecencyKey())) &&
        appOrder == old(appOrder) && appOrderNext == old(appOrderNext)
      ensures keepStable.GetOr(true) && wsIndex.None? ==>
        apps == Ids(Dedup(windows)) && appOrder == old(appOrder) && appOrderNext == old(appOrderNext)
      ensures keepStable.GetOr(true) && wsIndex.Some? ==>
        var st := Refresh(Ids(Dedup(windows)), StartState(old(appOrder), old(appOrderNext), wsIndex.value));
        && appOrder == old(appOrder)[wsIndex.value := st.ordinals]
        && appOrderNext == old(appOrderNext)[wsIndex.value := st.next]
        && apps == StableOrder(Dedup(windows), st.ordinals)
    {
      var es := DedupWindows(windows);
      if !keepStable.GetOr(true) {
        return Ids(SortBy(es, RecencyKey()));
      }
      if wsIndex.None? {
        return Ids(es);
      }
      var k := wsIndex.value;
      var start := StartState(appOrder, appOrderNext, k);
      StartStateWellNumbered(appOrder, appOrderNext, k);
      var st;
      apps, st := StableApps(es, start);
      appOrder := appOrder[k := st.ordinals];
      appOrderNext := appOrderNext[k := st.next];
    }

    /**
     * A press on an application icon: any previous drag is cancelled and a
     * new record is made with the squared threshold (the first one the
     * toolkit settings offer, else 8) and a snapshot of the items' boxes.
     */
    method StartAppIconDrag(appId: string, sourceWorkspace: int, windows: seq<nat>, iconSize: int,
                            startX: int, startY: int,
                            dnd: Option<int>, drag: Option<int>, property: Option<int>,
                            geometry: map<nat, Placement>)
      requires Valid()
      modifies this`iconDrag, this`dropHighlight
      ensures Valid() && dropHighlight.None?
      ensures iconDrag == Some(NewDrag(appId, sourceWorkspace, windows, iconSize, startX, startY,
                                       DragThreshold(dnd, drag, property), Snapshot(Refs(items), geometry)))
    {
      dropHighlight := None;
      iconDrag := None;
      var threshold := DragThreshold(dnd, drag, property);
      var bounds := Snapshot(Refs(items), geometry);
      iconDrag := Some(NewDrag(appId, sourceWorkspace, windows, iconSize, startX, startY, threshold, bounds));
    }

    /**
     * An event captured by the stage while a drag record exists: the record
     * and the highlight follow the drag transition, and its effect and
     * whether the event is stopped are returned. Without a record or a
     * panel the event propagates and nothing changes.
     */
    method HandleCapturedEvent(ev: Event) returns (effect: Effect, stop: bool)
      requires Valid()
      modifies this`iconDrag, this`dropHighlight
      ensures Valid()
      ensures old(iconDrag).None? || !hasPanel ==>
        effect == NoEffect && !stop && iconDrag == old(iconDrag) && dropHighlight == old(dropHighlight)
      ensures old(iconDrag).Some? && hasPanel ==>
        var o := Step(old(iconDrag).value, old(dropHighlight), ev);
        iconDrag == o.drag && dropHighlight == o.highlight && effect == o.effect && stop == o.stop
    {
      if iconDrag.None? || !hasPanel {
        return NoEffect, false;
      }
      var o := Step(iconDrag.value, dropHighlight, ev);
      iconDrag, dropHighlight := o.drag, o.highlight;
      effect, stop := o.effect, o.stop;
    }

    /**
     * Refreshes the focus highlight of at most two icons: after a passing
     * binding check, the previously focused icon and the newly focused one
     * (none when the focus did not move), and remembers the new key.
     */
    method UpdateFocusedIcons(wm: Option<WorkspaceManager>, focus: Option<FocusWindow>)
      returns (refreshed: seq<FocusKey>)
      requires Valid()
      modifies this
      ensures Valid()
      ensures appOrder == old(appOrder) && appOrderNext == old(appOrderNext)
      ensures old(rebuildInProgress) ==> refreshed == [] && unchanged(this)
      ensures !old(rebuildInProgress) && hasPanel && wm.Some? && !BindingsHold(old(items), wm.value) ==>
        && refreshed == [] && lastFocused.None?
        && items == Rebuilt(wm.value, old(nextSerial)) && Agrees(items, wm.value)
        && !rebuildInProgress && iconDrag.None? && dropHighlight.None? && geometryRefreshPending
      ensures !old(rebuildInProgress) && (!hasPanel || wm.None? || BindingsHold(old(items), wm.value)) ==>
        var u := FocusStep(old(lastFocused), FocusKeyOf(focus), |old(items)|);
        && refreshed == u.refresh && lastFocused == u.last && items == old(items)
        && iconDrag == old(iconDrag) && dropHighlight == old(dropHighlight) && nextSerial == old(nextSerial)
        && rebuildInProgress == old(rebuildInProgress) && geometryRefreshPending == old(geometryRefreshPending)
    {
      var ok := EnsureWorkspaceBindings(wm);
      if !ok {
        return [];
      }
      var u := FocusStep(lastFocused, FocusKeyOf(focus), |items|);
      lastFocused := u.last;
      refreshed := u.refresh;
    }

    /** The queued geometry refresh runs: it only clears the pending flag here. */
    method RunPendingGeometryRefresh()
      requires Valid()
      modifies this`geometryRefreshPending
      ensures Valid() && !geometryRefreshPending
    {
      geometryRefreshPending := false;
    }

    /** Switching the stable-order setting forgets every ordering table. */
    method ClearAppOrder()
      requires Valid()
      modifies this`appOrder, this`appOrderNext
      ensures Valid() && appOrder == map[] && appOrderNext == map[]
    {
      appOrder := map[];
      appOrderNext := map[];
    }
  }
}
