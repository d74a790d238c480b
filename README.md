# dash-to-workspaces: a verified model of the workspace strip and the panel manager

This project models the core of the dash-to-workspaces GNOME Shell extension in Dafny:

- the panel's **workspace preview strip** (`workspacePreview.js`):
  - the size of the application icons and the spacing they need;
  - the height of the previews;
  - the five shortcut slots;
  - the incremental sync of preview items with the window manager's workspace list, with its fall-back to a full rebuild;
  - one icon per application on each workspace, in stable (ordinal) or recency order;
  - the icon drag-and-drop state machine;
  - the focused-icon tracker;
  - the workspace labels.
- the **panel manager** (`panelManager.js`):
  - which panels exist on which monitors;
  - the desktop-icon margins;
  - the height clamp of panel popups;
  - the correction of the native top bar to the work area;
  - the replacement hot-corner placement;
  - the primary workspace view switch of the overview;
  - the `IconAnimator` that keeps icon animations in sync.

Code that updates objects in place is modelled as classes with `modifies` clauses:

- `WorkspacePreview.WorkspacePreviewView`
- `PanelManager.PanelManager`
- `PanelManager.WorkspacesDisplay`
- `IconAnimation.IconAnimator`

Each of their methods is proved against specification functions. The rest is functions and lemmas. Loops in the source are methods with loop invariants:

- the rebuild, the binding check, pop, append and renumber;
- the window deduplication and ordinal numbering;
- the panel-set construction;
- the hot-corner scan;
- the animator's list splicing.

Modules:

| file | module | models |
|---|---|---|
| `wrappers.dfy` | `Wrappers` | `Option` |
| `preview_geometry.dfy` | `PreviewGeometry` | icon size, list spacing, preview height |
| `workspace_labels.dfy` | `WorkspaceLabels` | "n" / "n. name" labels |
| `shortcuts.dfy` | `Shortcuts` | the five shortcut slots and their seeding from favourites |
| `stable_sort.dfy` | `StableSort` | a stable sort by integer key (the engine's `Array.prototype.sort` is stable) |
| `app_icon_order.dfy` | `AppIconOrder` | deduplication of windows by application, per-workspace ordinals, icon order |
| `icon_drag.dfy` | `IconDrag` | drag record, hit testing, captured-event transitions |
| `workspace_preview.dfy` | `WorkspacePreview` | the strip object: sync, rebuild, bindings, focus, drag, icon lists |
| `panel_manager.dfy` | `PanelManager` | panel set, margins, popup clamp, top bar, primary view visibility |
| `icon_animator.dfy` | `IconAnimation` | the icon animator |
| `hot_corners.dfy` | `HotCorners` | hot-corner placement and barrier size |

## Modelling notes

### The window manager and preview items

- **Workspace list.** The workspace manager is a value: a reported count plus a map from index to workspace identity. An index missing from the map stands for a `null` answer of `get_workspace_by_index`.
- **Preview items.** Each item carries a creation serial. This makes object identity observable: an item "kept" by the incremental sync has the same serial, and a recreated item has a fresh one.

### Settings and the shell

- Settings and shell state are parameters.
- A setting read that can throw, or a property that can be missing, is an `Option`. The model applies the source's fallback to `None` itself: 48 for the icon size, spacing 0 with the bottom-right name position for the list spacing (both reads fall back together), 0 for the list spacing in the height computation, stable order for the icon order setting, and the threshold chain ending in 8 for drags.
- Resolving the `primary-monitor` setting string to an index is outside the model. It is a parameter (`configured`).
- `keepTopPanel` is the combined flag `USE_SAFE_DEFAULTS_CONFLICTING || stockgs-keep-top-panel`.

### Behaviour of the code worth noting

- **The full rebuild keeps the ordering tables.** `_updateWorkspaces` (`workspacePreview.js:1723-1807`) does not clear the per-workspace ordinal tables. Only the stable-order setting switch (`workspacePreview.js:200-213`) and shrinking the strip (`workspacePreview.js:854-874`) clear them.
- **A rebuild can bind an item to a missing workspace.** The rebuild binds item *i* to whatever the manager reports at *i*, which may be nothing. The binding check skips items that have no workspace.
- **A missing workspace manager leaves rebuilds disabled.** Without a manager the rebuild fails after discarding the items and before clearing its in-progress flag. The flag therefore stays set, which disables every later rebuild. `UpdateWorkspaces` states this case (`wm.None?`).
- **The popup clamp.** It reads the panel's `outerSize` directly (`panelManager.js:858`). When no panel is on the monitor, the lookup fails and the source throws. The model returns `None` there.
- **The hot-corner beside point.** In right-to-left layouts it is tested at `monitor.x + 1`, a pixel inside the monitor's own left edge (`panelManager.js:1068`). This is modelled as written. `RtlBesidePointIsOwnPixel` states the consequence.
- **The primary view can disagree with its flag.** `setFocusedMonitor` moves the overview's primary index (`panelManager.js:568-569`) without touching any view, and `_newSetPrimaryWorkspaceVisible` returns at once when the request equals the remembered flag (`panelManager.js:696`). After hiding the primary view and moving the primary to a monitor whose view is visible, hiding again leaves that view visible until the views are rebuilt (`panelManager.js:706-746`). `StalePrimaryView` exhibits this state.
- **Shortcut seeding is not one-off.** The read seeds from the favourites whenever every slot is empty (`workspacePreview.js:427-448`), although its comment describes a first-time default. Removing the last shortcut (`workspacePreview.js:464-466`) empties every slot, so the next read seeds again from the current favourites. `ClearingLastSlotReseeds` states this.
- **The icon animator's names.** The only name the animator is ever created with is `dance`. A call with another name makes the source throw (`this._animations[name]` is undefined), so the model requires the name to be in the table. The model is written for any fixed list of distinct names.

## Model

| member | source | states |
|---|---|---|
| PreviewGeometry.PreviewAppIconSize | workspacePreview.js:240-249 | The icon size is the setting clamped to [16, 96], or 48 when the setting cannot be read. |
| PreviewGeometry.IconOverflowPx | workspacePreview.js:266-271 | The overflow is 0 with names below; otherwise it is the ceiling of (icon size + 6) / 2, stated by the bounds 2r ≥ size+6 ≥ 2r−1. |
| PreviewGeometry.IconOverflowBounds | workspacePreview.js:264-271 | For every setting, the overflow with names not below lies in [11, 51]. |
| PreviewGeometry.ListSpacingForIconSize | workspacePreview.js:251-286 | With a layout manager: spacing = base + overflow and bottom padding = overflow. When the settings cannot be read, the base is 0 and the overflow is that of the bottom-right name position. Without a layout manager: nothing is set. |
| PreviewGeometry.IdealHeight | workspacePreview.js:349-357 | The ideal height is previewWidth·h/w rounded half up, stated as 2wr ≤ 2·pw·h + w < 2w(r+1), when the work area is known and non-empty; otherwise it is 120. |
| PreviewGeometry.FitHeight | workspacePreview.js:387-409 | The fitted height is at least 24 and at most max(ideal, 24). It is max(24, ideal) when the previews fit or space is unknown. |
| PreviewGeometry.ComputePreviewHeight | workspacePreview.js:347-410 | The preview height is at least 24 and at most max(ideal height, 24), whatever the count, the name position and the spacing. |
| PreviewGeometry.ShrinkIsFloorDivision | workspacePreview.js:401-409 | When shrinking, the height is max(24, ⌊(avail − fixed)/n⌋), and that quotient is below the ideal height. |
| PreviewGeometry.PreviewHeightBounds | workspacePreview.js:347-410 | The computed preview height lies between 24 and max(ideal, 24) for every count, name position and spacing, with n = max(1, count). |
| PreviewGeometry.ShrinkExample | workspacePreview.js:369-409 | Example: ten workspaces with ideal 120, overhead 96 and 1000 px available get 90 px previews. |
| WorkspaceLabels.Decimal | workspacePreview.js:940 | The decimal rendering is a non-empty string of digits with no leading zero. |
| WorkspaceLabels.ParseDecimalRoundTrip | workspacePreview.js:940 | Parsing the decimal rendering of n gives back n. |
| WorkspaceLabels.WorkspaceDisplayText | workspacePreview.js:939-950 | The label is "i+1. name" when the workspace-names list has a non-empty name at i; otherwise it is "i+1". |
| WorkspaceLabels.DisplayTextNumber | workspacePreview.js:939-950 | The leading number of every label reads back as index + 1, whatever the name. |
| Shortcuts.Normalize | workspacePreview.js:414-425 | The stored list is cut or padded with empty ids to exactly five slots. |
| Shortcuts.NonEmptyIds | workspacePreview.js:431-439 | Every id kept from the favourites is non-empty. |
| Shortcuts.NonEmptyConcat | workspacePreview.js:431-439 | Filtering the favourites distributes over concatenation, which lets the loop extend its result one favourite at a time. |
| Shortcuts.CollectFavoriteIds | workspacePreview.js:431-439 | The loop keeps the first non-empty favourite ids, in order, stopping once five are kept. |
| Shortcuts.GetShortcutAppIds | workspacePreview.js:412-451 | Five ids are read. They are written back exactly when every slot is empty and there is a non-empty favourite; otherwise the normalized stored list is returned. |
| Shortcuts.ReadShortcutAppIds | workspacePreview.js:412-451 | The imperative read (pad or cut the stored list, then seed from the favourites when every slot is empty) returns exactly the ids and the write that `GetShortcutAppIds` specifies. |
| Shortcuts.SeedFromFavorites | workspacePreview.js:427-448 | Seeding fills the first min(5, k) slots with the non-empty favourites in order and leaves the rest empty. |
| Shortcuts.SeedPersists | workspacePreview.js:412-451 | After a seeding write, the next read returns the same ids, writes nothing and ignores later favourites. |
| Shortcuts.SetShortcutAt | workspacePreview.js:453-462 | An index outside the five slots changes nothing beyond the read's own write. Otherwise five slots are stored: the given one holds the id and the others keep what the read returned. |
| Shortcuts.SetThenGet | workspacePreview.js:412-462 | After setting slot i to a non-empty id, reading returns that id at i and the previous ids elsewhere, without seeding. |
| Shortcuts.ClearingLastSlotReseeds | workspacePreview.js:412-466 | Clearing the only slot still in use empties every slot, so the next read seeds again from the favourites of that moment and writes them back, as a first read of an empty list does. |
| StableSort.InsertPermutes | workspacePreview.js:1236-1238 | Insertion into a sorted list is a permutation. |
| StableSort.SortByOrders | workspacePreview.js:1236-1238 | The stable sort returns a permutation of its input, sorted by key. |
| StableSort.SortByIsStable | workspacePreview.js:1265-1271 | Elements with equal keys keep their relative order. |
| StableSort.SortByDistinct | workspacePreview.js:1265-1271 | Sorting keeps a list's projections pairwise distinct. |
| StableSort.SmallerKeyFirst | workspacePreview.js:1265-1271 | In a sorted list, an element with a smaller key comes first. |
| AppIconOrder.FindEntry | workspacePreview.js:1224 | The lookup finds the entry with the id, or reports that none has it. |
| AppIconOrder.FirstOcc | workspacePreview.js:1201-1226 | The position of an application's first window, or −1 when it has none. |
| AppIconOrder.DedupCorrect | workspacePreview.js:1201-1226 | Deduplication gives one entry per application present, none for windows without one, in first-seen order. Each entry's time is the greatest user time of its windows, taken from the first window with that time. |
| AppIconOrder.AssignNewFacts | workspacePreview.js:1250-1255 | Numbering new ids keeps old ordinals and the invariant, numbers every id, and adds no other. |
| AppIconOrder.AssignNewInOrder | workspacePreview.js:1250-1255 | New applications seen later get larger ordinals. |
| AppIconOrder.RefreshFacts | workspacePreview.js:1241-1262 | After a refresh, exactly the present applications are numbered. Kept ones keep their ordinal, new ones get ordinals from the old counter on, all ordinals are below the counter, and the counter never decreases. |
| AppIconOrder.StableOrderKeepsOldOrder | workspacePreview.js:1241-1271 | Two applications numbered before and still present are shown in old-ordinal order, whatever their user times. |
| AppIconOrder.NewAppsComeLast | workspacePreview.js:1241-1271 | A newly seen application is shown after every previously numbered one. |
| AppIconOrder.StableOrderIsStrict | workspacePreview.js:1241-1271 | The stable-order list is a permutation of the applications, all numbered, in strictly increasing ordinal order. |
| AppIconOrder.RecencyOrder | workspacePreview.js:1234-1238 | The recency list is a permutation, by descending user time; ties are in first-seen order. |
| IconDrag.Placed | workspacePreview.js:1531-1535 | An item's box starts at its transformed position and has its allocation's size. |
| IconDrag.Snapshot | workspacePreview.js:1526-1540 | One box per item whose geometry is known, in item order. Items without geometry are dropped. |
| IconDrag.SnapshotInItemOrder | workspacePreview.js:1526-1540 | The snapshot's bounds come from strictly increasing item positions, each bound holding the item at its position, and every item the toolkit can place is among them. |
| IconDrag.FirstHit | workspacePreview.js:1464-1479 | The first box that contains the point, edges included; −1 when none does. |
| IconDrag.FindItemAtFirstBox | workspacePreview.js:1464-1479 | The item found is the item of the first box that contains the point. |
| IconDrag.FindWorkspaceItemAt | workspacePreview.js:1464-1479 | The loop over the snapshot returns the item of the first box containing the point, or none. |
| IconDrag.DragThreshold | workspacePreview.js:1489-1500 | The threshold is the first of dnd_drag_threshold, drag_threshold and the property that exists, else 8. |
| IconDrag.NewDrag | workspacePreview.js:1516-1541 | A new drag record is not dragging, stores the squared threshold and keeps its inputs. |
| IconDrag.Step | workspacePreview.js:1543-1634 | Each captured event's transition, as listed below. |
| IconDrag.ClickNeverMoves | workspacePreview.js:1565-1602 | Motions within the threshold never start a drag or move windows. |
| IconDrag.DraggingIsSticky | workspacePreview.js:1565-1580 | Once dragging, a drag stays dragging and its record stays unchanged until it ends. |
| IconDrag.DropOnSourceMovesNothing | workspacePreview.js:1603-1627 | Releasing a drag over the source workspace, or outside every preview, moves nothing and ends the drag. |
| WorkspacePreview.Rebuilt | workspacePreview.js:1771-1785 | A rebuild creates one item per workspace. Item i is bound to what the manager reports at i, with index i and fresh serials. |
| WorkspacePreview.FocusKeyOf | workspacePreview.js:1685-1697 | The focus key exists exactly when the workspace index and a non-empty app id are known. |
| WorkspacePreview.FocusStep | workspacePreview.js:1699-1720 | The focus refresh, as listed below. |
| WorkspacePreview.FocusStepIdempotent | workspacePreview.js:1699-1707 | Repeating a focus update with the same focus refreshes nothing. |
| WorkspacePreview.RebuiltBindingsHold | workspacePreview.js:986-1024 | A rebuilt strip passes the binding check, so a rebuild triggers no second one, and agrees with the manager. |
| WorkspacePreview.AgreesIsStable | workspacePreview.js:824-914 | A strip that agrees with the manager is a fixed point of the incremental path. |
| WorkspacePreview.PopTo | workspacePreview.js:854-866 | Popping leaves exactly the first `desired` items. |
| WorkspacePreview.AppendItems | workspacePreview.js:877-907 | Appending either reports a missing workspace or extends the list to the count. It keeps the old prefix and binds each new item to its workspace with increasing fresh serials. |
| WorkspacePreview.Renumber | workspacePreview.js:910-914 | Every item's index becomes its position and nothing else changes. |
| WorkspacePreview.ResizeItems | workspacePreview.js:854-914 | The pop or append followed by the renumbering reports a missing workspace exactly when the incremental path does not apply. Otherwise the strip agrees with the manager, keeps its surviving prefix, has fresh increasing serials for new items, and the serial counter never goes back. |
| WorkspacePreview.CreateItems | workspacePreview.js:1771-1785 | The creation loop builds exactly `Rebuilt`: one item per workspace, bound to the manager's workspace, with fresh serials. |
| WorkspacePreview.StableApps | workspacePreview.js:1241-1271 | The numbering, pruning and sort build the refreshed ordinal table and the stable-order list for it; the table stays well numbered. |
| WorkspacePreview.DedupWindows | workspacePreview.js:1204-1226 | The loop computes the deduplication function. |
| WorkspacePreview.NumberNew | workspacePreview.js:1250-1255 | The loop computes the numbering function. |
| WorkspacePreview.PruneAbsent | workspacePreview.js:1257-1260 | The loop forgets exactly the numbered applications no longer present. |
| WorkspacePreview.WorkspacePreviewView.CancelIconDrag | workspacePreview.js:1447-1462 | The drag record and the highlight are cleared; nothing else changes. |
| WorkspacePreview.WorkspacePreviewView.UpdateWorkspaces | workspacePreview.js:1723-1807 | The full rebuild, as listed below. |
| WorkspacePreview.WorkspacePreviewView.EnsureWorkspaceBindings | workspacePreview.js:986-1024 | The binding check, as listed below. |
| WorkspacePreview.WorkspacePreviewView.SyncWorkspaceItems | workspacePreview.js:824-937 | The incremental sync, as listed below. |
| WorkspacePreview.WorkspacePreviewView.ApplyCountChange | workspacePreview.js:854-914 | The cheap path: pop (clearing the ordering tables) or append, then renumber. The result agrees with the manager, keeps the surviving items, the focus, the drag and its highlight, and queues a geometry refresh. A missing workspace turns it into a full rebuild that keeps the ordering tables. |
| WorkspacePreview.WorkspacePreviewView.UniqueAppsFromWindows | workspacePreview.js:1201-1276 | The icon list, as listed below. |
| WorkspacePreview.WorkspacePreviewView.StartAppIconDrag | workspacePreview.js:1486-1541 | Any drag is cancelled. The new record has the threshold from the settings and a snapshot of the items' boxes. |
| WorkspacePreview.WorkspacePreviewView.HandleCapturedEvent | workspacePreview.js:1543-1634 | With a drag record and a panel, the record, highlight, effect and stop flag follow `Step`. Otherwise the event propagates and nothing changes. |
| WorkspacePreview.WorkspacePreviewView.UpdateFocusedIcons | workspacePreview.js:1674-1721 | The ordering tables always stay. During a rebuild nothing changes. After a passing binding check, the refreshed icons and the remembered key follow `FocusStep`, and the items, drag, highlight, serial counter and flags stay. A failing check rebuilds the strip (`Rebuilt`, drag cleared, geometry refresh queued) and refreshes nothing. |
| WorkspacePreview.WorkspacePreviewView.ClearAppOrder | workspacePreview.js:200-213 | Switching the stable-order setting empties every ordering table. |
| WorkspacePreview.WorkspacePreviewView.RunPendingGeometryRefresh | workspacePreview.js:929-936 | The idle callback queued after a sync runs once: the pending refresh is cleared. |
| PanelManager.PrimaryMonitor | panelManager.js:72-78 | The primary monitor is the configured index when it names a monitor, else the layout manager's primary. |
| PanelManager.OtherPanelsOrdered | panelManager.js:114-121 | The other panels are standalone, on existing non-primary monitors, in strictly increasing monitor order. |
| PanelManager.OtherPanelsCover | panelManager.js:114-121 | Every non-primary monitor gets one of them, and there are exactly as many as such monitors. |
| PanelManager.PanelSetShape | panelManager.js:70-121 | The panel set is described below. |
| PanelManager.PrimaryThenOthers | panelManager.js:70-121 | A primary panel followed by the ascending other panels lies on existing, pairwise distinct monitors, and covers the primary and every other panel's monitor. |
| PanelManager.PanelOn | panelManager.js:557 | The focused panel is a panel on that monitor, or none exists there. |
| PanelManager.PanelManager.Enable | panelManager.js:70-121 | The loop builds exactly `PanelSet` for the chosen primary, and the primary's panel becomes the focused one. |
| PanelManager.PanelManager.SetFocusedMonitor | panelManager.js:556-557 | The focused panel is the first panel on the monitor. |
| PanelManager.PanelManager.QueueUpdateTopPanelBox | panelManager.js:476-484 | After the call an update is queued. A second request while one is pending changes nothing. |
| PanelManager.PanelManager.RunQueuedTopPanelBoxUpdate | panelManager.js:478-483 | The idle callback clears the flag and applies the correction. |
| PanelManager.PanelManager.UpdateTopPanelBoxFromWorkArea | panelManager.js:486-510 | The bar's box becomes `CorrectedPanelBox` of the old one. |
| PanelManager.CorrectedPanelBox | panelManager.js:486-510 | The bar moves to (work-area x, primary y) with the work area's width. It is untouched when reparented or when the monitor or work area is unknown. |
| PanelManager.CorrectionIdempotent | panelManager.js:486-510 | Correcting twice is correcting once. |
| PanelManager.PanelMargins | panelManager.js:514-552 | A panel reserves its outer size on its own edge and 0 on the other three. |
| PanelManager.DesktopIconsMargins | panelManager.js:512-554 | With a usable area, one margin call per panel in panel order; without one, none. |
| PanelManager.SetDesktopIconsMargins | panelManager.js:512-554 | The loop makes exactly the margin calls `DesktopIconsMargins` specifies, one per panel in order. |
| PanelManager.MarginsOneSide | panelManager.js:514-552 | At most one side of a margin call is non-zero, and the four sides sum to the outer size. |
| PanelManager.GeometryOn | panelManager.js:855-858 | The lookup returns the first panel on the monitor, or reports that none is there. |
| PanelManager.PopupPreferredHeight | panelManager.js:846-867 | The popup clamp, as listed below. |
| PanelManager.PopupFitsAbovePanel | panelManager.js:858-863 | After clamping, natural height + panel size + 10 never exceeds the monitor height. |
| PanelManager.WorkspacesDisplay.SetPrimaryWorkspaceVisible | panelManager.js:695-704 | A request equal to the remembered flag changes nothing, even when the primary view disagrees with it. Otherwise the flag is set and only the primary monitor's view, when it exists, takes the new visibility, which brings that view in line with the flag. |
| PanelManager.WorkspacesDisplay.UpdateWorkspacesViews | panelManager.js:706-746 | One view per monitor is rebuilt: the primary's takes the remembered flag and every secondary display is visible. |
| PanelManager.WorkspacesDisplay.MovePrimary | panelManager.js:568-569 | Focusing another monitor moves the primary index and changes no view and not the flag. |
| PanelManager.StalePrimaryView | panelManager.js:695-704 | With the primary view hidden, moving the primary to a monitor whose view is visible and hiding again leaves that view visible. |
| IconAnimation.Without | panelManager.js:1003-1020 | Splicing out a target shortens the list by one when present and leaves it unchanged when absent. |
| IconAnimation.WithoutMembers | panelManager.js:1003-1020 | Splicing keeps every other member and adds none; on a duplicate-free list it removes the target and keeps the list duplicate-free. |
| IconAnimation.WithoutAt | panelManager.js:1005-1010 | The splice removes exactly the first occurrence. |
| IconAnimation.TotalUpdate | panelManager.js:994-1009 | Replacing one name's list changes the animation count by the difference in its length. |
| IconAnimation.AddedFacts | panelManager.js:973-1001 | After an add, the same names exist, the target is last in its name's list and absent from every other, the lists stay duplicate-free, and other members are kept. |
| IconAnimation.AddedWellFormed | panelManager.js:973-1001 | Adding keeps every list duplicate-free and every target in at most one list. |
| IconAnimation.SpliceOut | panelManager.js:1003-1020 | The loop finds the target exactly when it is present and removes its first occurrence. |
| IconAnimation.SpliceOutEverywhere | panelManager.js:975-988 | The scan stops exactly when the target already runs under `name`. Otherwise it has removed the target from every list, and the count dropped by the number removed. |
| IconAnimation.AddedKeepsInvariant | panelManager.js:973-1001 | Appending the target to its name's list after removing it elsewhere is the specified add, and the animator invariant holds with the count adjusted. |
| IconAnimation.AddTo | panelManager.js:973-1001 | Adding keeps the animator invariant. A target already under the name changes nothing; otherwise the lists become `Added` and the count is recomputed. |
| IconAnimation.IconAnimator.constructor | panelManager.js:919-945 | The animator starts with an empty `dance` list, count 0, not started. |
| IconAnimation.IconAnimator.Pause | panelManager.js:959-964 | After pausing, the animator is not started and the timeline is stopped. |
| IconAnimation.IconAnimator.Start | panelManager.js:966-971 | After starting, the animator is started and the timeline runs exactly when some animation exists. |
| IconAnimation.IconAnimator.RemoveAnimation | panelManager.js:1003-1020 | Removal, as listed below. |
| IconAnimation.IconAnimator.AddAnimation | panelManager.js:973-1001 | An add, as listed below. |
| HotCorners.BarrierSize | panelManager.js:1096-1101 | The barrier is the panel's inner size, or the shell panel size without a panel, capped at the shell panel size. |
| HotCorners.HasTopLeftCorner | panelManager.js:1060-1091 | The scan keeps the corner exactly when no other monitor contains the beside point or the point above. |
| HotCorners.UpdateHotCorners | panelManager.js:1023-1112 | The loop builds exactly the specified corner list. |
| HotCorners.HotCornerListShape | panelManager.js:1032-1107 | The corner list is described below. |
| HotCorners.PrimaryCornerKept | panelManager.js:1060-1063 | The primary monitor with a top or left panel, or with the force setting, always gets its corner. |
| HotCorners.LeftNeighbourRemovesCorner | panelManager.js:1068-1081 | In left-to-right layouts, a monitor containing the pixel left of a non-primary corner removes that corner. |
| HotCorners.IsolatedMonitorKeepsCorner | panelManager.js:1066-1094 | A monitor with no monitor to its left or above keeps its corner, at its top-left pixel. |
| HotCorners.RtlBesidePointIsOwnPixel | panelManager.js:1068 | In right-to-left layouts, the beside point lies inside the monitor itself. |

Details of the longer rows:

- **IconDrag.Step.** For each captured event:
  - Escape or any release ends the drag and its highlight.
  - Other events keep the record, and every event but a motion keeps the highlight.
  - A motion starts dragging once it is past the threshold. While dragging, a motion highlights the item under the pointer (`FindItemAt` on the snapshot); below the threshold the highlight stays.
  - A left release activates the application, with the record's application and windows, exactly when not dragging. When dragging, it moves the windows exactly when the target is a workspace other than the source.
  - The event is stopped exactly for motions, Escape and left releases.
- **WorkspacePreview.FocusStep.** The remembered key becomes the new key. When the key is unchanged and set, nothing is refreshed. Otherwise at most two icons are refreshed: the old key first and the new key last, each only when its item exists.
- **WorkspacePreviewView.UpdateWorkspaces.**
  - It is skipped while a rebuild runs.
  - Otherwise the drag is cancelled and the items become `Rebuilt` for the manager, agreeing with it. The focus is reset, a geometry refresh is queued and the ordering tables are kept.
  - Without a manager the items are gone and the flag stays set; the focus, the serial counter and the geometry flag stay.
- **WorkspacePreviewView.EnsureWorkspaceBindings.**
  - The check is false during a rebuild, and nothing changes.
  - It is true without a panel or a manager.
  - Otherwise it is true exactly when every shared index has a workspace and no bound item is rebound; nothing changes then.
  - On failure the strip is rebuilt: the items are `Rebuilt`, the focus and the drag are reset, a geometry refresh is queued and the ordering tables stay.
- **WorkspacePreviewView.SyncWorkspaceItems.**
  - Without a panel or a manager, or while a rebuild runs, nothing changes.
  - Otherwise the strip ends in agreement with the manager and a geometry refresh is queued.
  - When the cheap path applies, surviving items are kept and new ones are fresh and bound. The focus, the drag and its highlight stay. The ordering tables are cleared exactly when the strip shrinks.
  - Any other case is a full rebuild: the items are `Rebuilt`, the focus and the drag are reset, and the ordering tables stay.
- **WorkspacePreviewView.UniqueAppsFromWindows.**
  - In recency mode: the deduplicated applications sorted by descending time.
  - In stable mode without an index: first-seen order.
  - In stable mode with an index: the workspace's table is refreshed and the applications are sorted by ordinal.
- **PanelManager.PanelSetShape.**
  - The primary panel comes first, standalone only when the top bar is kept.
  - In multi-monitor mode there is one panel per monitor; otherwise only the primary's.
  - No monitor gets two panels.
- **PanelManager.PopupPreferredHeight.**
  - Unclamped unless the popup is in a panel, has a source actor and intellihide is on.
  - When clamped, the natural height is cut to monitor height − panel size − 10.
  - The minimum height is never changed.
  - There is no result when the monitor has no panel.
- **IconAnimator.RemoveAnimation.** Removal splices the first occurrence out of `name`'s list and decrements the count when the target was there. An absent target changes nothing. The invariants are kept.
- **IconAnimator.AddAnimation.** An add changes nothing when the target already runs under `name`. Otherwise the target is removed from every other list and appended to `name`'s. The count and the timeline follow, and the invariants are kept.
- **HotCorners.HotCornerListShape.** Turned off by either setting, there are no corners. Turned on, there is one entry per monitor, each on its own monitor's top edge.

## Left out

- Rendering:
  - Clutter/St actors, styles, CSS classes, allocation and transformed positions;
  - the ghost icon of a drag.

  Positions and boxes are plain integers given as inputs.
- GLib idle and timeout sources. A queued idle callback is a flag plus a separate method that runs it (`RunQueuedTopPanelBoxUpdate`, `RunPendingGeometryRefresh`).
- Signal connections and disconnections: stage captured-event ids, destroy handlers of animation targets, settings change handlers. The one state change of a handler that is part of the core, the stable-order switch, is `ClearAppOrder`.
- The animator's dance rotation (a sine of the timeline progress in floating point) and the reset of the rotation on removal. The destroy handler that removes a destroyed target is also left out.
- Floating-point arithmetic. Coordinates and sizes are integers. `Math.round` is stated exactly for the ideal height. Event coordinates are taken as integers.
- Window activation and moving: `_activateBestWindowOrApp`, `moveWindowToMonitorAndWorkspace`, workspace activation. They appear only as the drag effects `ActivateApp` and `MoveWindows`.
- Reading and writing settings. A stored shortcut list is an input and the list written back is an output.
- The `primary-monitor` string lookup (`PanelSettings.getPrimaryIndex`): it is not part of this model.
- The debounce key of the work area (`_lastWorkAreaKey`), the shortcuts bar, visibility, active-state and label refresh calls made by a rebuild, and the geometry refresh's own computation.
- The monkey-patching of shell prototypes in `enable` and their restoration in `disable`. The overview constraint and `layoutManager.primaryMonitor` changes of `setFocusedMonitor`; its move of the overview's primary index is `WorkspacesDisplay.MovePrimary`.
- `rebuild_zh_CN.py` (a translation build script).
- Concurrency. Everything runs on the shell's main loop; each modelled operation is one atomic step.
- IconAnimation.IconAnimator.AddAnimation: its contract assumes the animator's invariant that a target runs under at most one name. The source keeps this only through its own calls. A target placed in two lists by other means is not modelled.
- WorkspacePreview.WorkspacePreviewView.UniqueAppsFromWindows: application ids are given per window. The fallback chain `get_id` → `get_name` → `String(app)` is collapsed into that id, and windows without an application have no id.
