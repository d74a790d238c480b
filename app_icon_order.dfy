/**
 * Which application icons a workspace preview shows, and in which order.
 * The windows of a workspace are reduced to one entry per application,
 * represented by its most recently used window. In stable-order mode every
 * application gets an ordinal from a per-workspace counter the first time it
 * is seen, keeps it while it stays on the workspace, and icons are sorted by
 * ordinal, so activating an application never reorders the icons. In
 * recency mode the icons are sorted by last use, most recent first.
 */
module AppIconOrder {
  import opened Wrappers
  import opened StableSort

  /** A window as far as ordering is concerned: its application id (absent
      when no application is known for it) and its last user time. */
  datatype Window = Window(app: Option<string>, userTime: int)

  /** One application of a workspace: its id, the user time and the
      position of its representative window. */
  datatype Entry = Entry(id: string, time: int, rep: nat)

  /** Position of the entry for `id`, or -1 (a lookup in the insertion-ordered map). */
  function FindEntry(es: seq<Entry>, id: string): (k: int)
    ensures -1 <= k < |es|
    ensures k >= 0 ==> es[k].id == id
    ensures k == -1 ==> forall i :: 0 <= i < |es| ==> es[i].id != id
  {
    if es == [] then -1
    else if es[|es| - 1].id == id then |es| - 1
    else FindEntry(es[..|es| - 1], id)
  }

  /** Accounts for window `w` at position `pos`: a new application is added at
      the end; a known one is replaced only by a strictly later user time. */
  function AddWindow(es: seq<Entry>, w: Window, pos: nat): seq<Entry>
  {
    if w.app.None? then es
    else
      var k := FindEntry(es, w.app.value);
      if k < 0 then es + [Entry(w.app.value, w.userTime, pos)]
      else if w.userTime > es[k].time then es[k := Entry(w.app.value, w.userTime, pos)]
      else es
  }

  /** The windows deduplicated by application, in insertion order. */
  function Dedup(ws: seq<Window>): seq<Entry>
  {
    if ws == [] then [] else AddWindow(Dedup(ws[..|ws| - 1]), ws[|ws| - 1], |ws| - 1)
  }

  /** Position of the first window of application `id`, or -1. */
  function FirstOcc(ws: seq<Window>, id: string): (f: int)
    ensures -1 <= f < |ws|
    ensures f >= 0 ==> ws[f].app == Some(id) && forall p :: 0 <= p < f ==> ws[p].app != Some(id)
    ensures f == -1 ==> forall p :: 0 <= p < |ws| ==> ws[p].app != Some(id)
  {
    if ws == [] then -1
    else
      var f := FirstOcc(ws[..|ws| - 1], id);
      if f >= 0 then f else if ws[|ws| - 1].app == Some(id) then |ws| - 1 else -1
  }

  predicate DistinctIds(es: seq<Entry>)
  {
    forall i, j :: 0 <= i < j < |es| ==> es[i].id != es[j].id
  }

  /** Entry `e` stands for the window of its application with the greatest
      user time, the first such window when several share it. */
  predicate Representative(ws: seq<Window>, e: Entry)
  {
    && e.rep < |ws| && ws[e.rep].app == Some(e.id) && ws[e.rep].userTime == e.time
    && (forall p :: 0 <= p < |ws| && ws[p].app == Some(e.id) ==> ws[p].userTime <= e.time)
    && (forall p :: 0 <= p < e.rep && ws[p].app == Some(e.id) ==> ws[p].userTime < e.time)
  }

  predicate AllRepresentative(ws: seq<Window>, es: seq<Entry>)
  {
    forall i :: 0 <= i < |es| ==> Representative(ws, es[i])
  }

  /** Every window with an application has an entry. */
  predicate Covers(ws: seq<Window>, es: seq<Entry>)
  {
    forall p :: 0 <= p < |ws| && ws[p].app.Some? ==> FindEntry(es, ws[p].app.value) >= 0
  }

  /** Entries are in order of their application's first window. */
  predicate InFirstSeenOrder(ws: seq<Window>, es: seq<Entry>)
  {
    forall i, j :: 0 <= i < j < |es| ==> FirstOcc(ws, es[i].id) < FirstOcc(ws, es[j].id)
  }

  /** What deduplication promises. */
  predicate DedupSpec(ws: seq<Window>, es: seq<Entry>)
  {
    DistinctIds(es) && AllRepresentative(ws, es) && Covers(ws, es) && InFirstSeenOrder(ws, es)
  }

  /**
   * Deduplication keeps exactly one entry per application present, whose
   * time is the latest user time of that application's windows (its first
   * window with that time), in order of first appearance.
   */
  lemma {:induction false} DedupCorrect(ws: seq<Window>)
    ensures DedupSpec(ws, Dedup(ws))
    decreases |ws|
  {
    if ws != [] {
      var init, w := ws[..|ws| - 1], ws[|ws| - 1];
      DedupCorrect(init);
      var es := Dedup(init);
      assert ws == init + [w];
      AddWindowDistinct(es, w, |init|);
      AddWindowRepresentative(init, es, w);
      AddWindowCovers(init, es, w);
      AddWindowOrder(init, es, w);
    }
  }

  lemma AddWindowDistinct(es: seq<Entry>, w: Window, pos: nat)
    requires DistinctIds(es)
    ensures DistinctIds(AddWindow(es, w, pos))
  {
  }

  lemma RepresentativeOther(init: seq<Window>, w: Window, e: Entry)
    requires Representative(init, e) && w.app != Some(e.id)
    ensures Representative(init + [w], e)
  {
    var ws := init + [w];
    assert forall p :: 0 <= p < |init| ==> ws[p] == init[p];
  }

  lemma RepresentativeKeep(init: seq<Window>, w: Window, e: Entry)
    requires Representative(init, e) && w.app == Some(e.id) && w.userTime <= e.time
    ensures Representative(init + [w], e)
  {
    var ws := init + [w];
    assert forall p :: 0 <= p < |init| ==> ws[p] == init[p];
  }

  lemma RepresentativeReplace(init: seq<Window>, w: Window, e: Entry)
    requires Representative(init, e) && w.app == Some(e.id) && w.userTime > e.time
    ensures Representative(init + [w], Entry(e.id, w.userTime, |init|))
  {
    var ws := init + [w];
    assert forall p :: 0 <= p < |init| ==> ws[p] == init[p];
  }

  lemma RepresentativeNew(init: seq<Window>, w: Window)
    requires w.app.Some? && forall p :: 0 <= p < |init| ==> init[p].app != w.app
    ensures Representative(init + [w], Entry(w.app.value, w.userTime, |init|))
  {
    var ws := init + [w];
    assert forall p :: 0 <= p < |init| ==> ws[p] == init[p];
  }

  lemma AddWindowRepresentative(init: seq<Window>, es: seq<Entry>, w: Window)
    requires DistinctIds(es) && AllRepresentative(init, es) && Covers(init, es)
    ensures AllRepresentative(init + [w], AddWindow(es, w, |init|))
  {
    var r := AddWindow(es, w, |init|);
    if w.app.None? {
      forall i | 0 <= i < |r| ensures Representative(init + [w], r[i]) {
        RepresentativeOther(init, w, es[i]);
      }
    } else {
      var k := FindEntry(es, w.app.value);
      forall i | 0 <= i < |es| && i != k ensures Representative(init + [w], es[i]) {
        RepresentativeOther(init, w, es[i]);
      }
      if k < 0 {
        forall p | 0 <= p < |init| ensures init[p].app != w.app {
          if init[p].app.Some? {
            assert FindEntry(es, init[p].app.value) >= 0;
          }
        }
        RepresentativeNew(init, w);
      } else if w.userTime > es[k].time {
        RepresentativeReplace(init, w, es[k]);
      } else {
        RepresentativeKeep(init, w, es[k]);
      }
    }
  }

  lemma AddWindowCovers(init: seq<Window>, es: seq<Entry>, w: Window)
    requires Covers(init, es)
    ensures Covers(init + [w], AddWindow(es, w, |init|))
  {
    var ws := init + [w];
    var r := AddWindow(es, w, |init|);
    forall p | 0 <= p < |ws| && ws[p].app.Some? ensures FindEntry(r, ws[p].app.value) >= 0 {
      if p < |init| {
        assert ws[p] == init[p];
        var k' := FindEntry(es, ws[p].app.value);
        assert r[k'].id == es[k'].id;
      } else {
        var k := FindEntry(es, w.app.value);
        if k < 0 {
          assert r[|es|].id == w.app.value;
        } else {
          assert r[k].id == w.app.value;
        }
      }
    }
  }

  lemma FirstOccExtend(init: seq<Window>, w: Window, id: string)
    requires FirstOcc(init, id) >= 0
    ensures FirstOcc(init + [w], id) == FirstOcc(init, id)
  {
    assert (init + [w])[..|init|] == init;
  }

  lemma AddWindowKeepsIds(es: seq<Entry>, w: Window, pos: nat)
    ensures var r := AddWindow(es, w, pos);
      |r| >= |es| && forall i :: 0 <= i < |es| ==> r[i].id == es[i].id
  {
  }

  lemma AddWindowOrder(init: seq<Window>, es: seq<Entry>, w: Window)
    requires DistinctIds(es) && AllRepresentative(init, es) && Covers(init, es)
    requires InFirstSeenOrder(init, es)
    ensures InFirstSeenOrder(init + [w], AddWindow(es, w, |init|))
  {
    var ws := init + [w];
    var r := AddWindow(es, w, |init|);
    AddWindowKeepsIds(es, w, |init|);
    forall i | 0 <= i < |es|
      ensures FirstOcc(ws, r[i].id) == FirstOcc(init, es[i].id) && 0 <= FirstOcc(init, es[i].id) < |init|
    {
      assert Representative(init, es[i]);
      assert init[es[i].rep].app == Some(es[i].id);
      FirstOccExtend(init, w, es[i].id);
    }
    if |r| > |es| {
      var id := w.app.value;
      assert r[|es|].id == id;
      forall p | 0 <= p < |init| ensures init[p].app != w.app {
        if init[p].app.Some? {
          assert FindEntry(es, init[p].app.value) >= 0;
        }
      }
      assert FirstOcc(init, id) == -1;
      assert ws[..|init|] == init;
      assert FirstOcc(ws, id) == |init|;
    }
  }

  /** A per-workspace ordinal table and the next ordinal to hand out. */
  datatype OrderState = OrderState(ordinals: map<string, nat>, next: nat)

  /** Ordinals are below the counter and no two applications share one. */
  predicate WellNumbered(st: OrderState)
  {
    && (forall id :: id in st.ordinals ==> st.ordinals[id] < st.next)
    && (forall a, b :: a in st.ordinals && b in st.ordinals && a != b ==>
          st.ordinals[a] != st.ordinals[b])
  }

  /** One step of numbering: an id not yet numbered gets the counter, which advances. */
  function Number(st: OrderState, id: string): OrderState
  {
    if id in st.ordinals then st else OrderState(st.ordinals[id := st.next], st.next + 1)
  }

  /** Hands out `next`, `next + 1`, ... to the ids not yet numbered, in order. */
  function AssignNew(ids: seq<string>, st: OrderState): OrderState
  {
    if ids == [] then st else Number(AssignNew(ids[..|ids| - 1], st), ids[|ids| - 1])
  }

  /** Forgets the applications that are no longer present. */
  function Prune(st: OrderState, ids: seq<string>): OrderState
  {
    OrderState(map id | id in st.ordinals && id in ids :: st.ordinals[id], st.next)
  }

  /** One refresh of a workspace's table with the ids currently present. */
  function Refresh(ids: seq<string>, st: OrderState): OrderState
  {
    Prune(AssignNew(ids, st), ids)
  }

  /** What one numbering step keeps: the invariant, old ordinals, and bounds for new ones. */
  predicate Extends(st: OrderState, r: OrderState)
  {
    && WellNumbered(r)
    && r.next >= st.next
    && (forall id :: id in st.ordinals ==> id in r.ordinals && r.ordinals[id] == st.ordinals[id])
    && (forall id :: id in r.ordinals && id !in st.ordinals ==> st.next <= r.ordinals[id])
  }

  lemma NumberExtends(st: OrderState, id: string)
    requires WellNumbered(st)
    ensures Extends(st, Number(st, id)) && id in Number(st, id).ordinals
    ensures forall x :: x in Number(st, id).ordinals ==> x in st.ordinals || x == id
  {
  }

  lemma ExtendsTransitive(a: OrderState, b: OrderState, c: OrderState)
    requires Extends(a, b) && Extends(b, c)
    ensures Extends(a, c)
  {
  }

  lemma {:induction false} AssignNewFacts(ids: seq<string>, st: OrderState)
    requires WellNumbered(st)
    ensures var r := AssignNew(ids, st);
      && Extends(st, r)
      && (forall i :: 0 <= i < |ids| ==> ids[i] in r.ordinals)
      && (forall x :: x in r.ordinals ==> x in st.ordinals || x in ids)
    decreases |ids|
  {
    if ids != [] {
      var init := ids[..|ids| - 1];
      AssignNewFacts(init, st);
      var s := AssignNew(init, st);
      NumberExtends(s, ids[|ids| - 1]);
      ExtendsTransitive(st, s, AssignNew(ids, st));
      forall i | 0 <= i < |ids| - 1 ensures ids[i] in AssignNew(ids, st).ordinals {
        assert ids[i] == init[i];
      }
      forall x | x in AssignNew(ids, st).ordinals ensures x in st.ordinals || x in ids {
        if x in s.ordinals && x !in st.ordinals {
          var p :| 0 <= p < |init| && init[p] == x;
          assert ids[p] == x;
        }
      }
    }
  }

  /** The ordinals of new ids first seen later are larger. */
  lemma {:induction false} AssignNewInOrder(ids: seq<string>, st: OrderState, i: nat, j: nat)
    requires WellNumbered(st)
    requires i < j < |ids| && ids[i] != ids[j]
    requires ids[i] !in st.ordinals && ids[j] !in st.ordinals
    requires forall p :: 0 <= p < j ==> ids[p] != ids[j]
    ensures var r := AssignNew(ids, st);
      ids[i] in r.ordinals && ids[j] in r.ordinals && r.ordinals[ids[i]] < r.ordinals[ids[j]]
    decreases |ids|
  {
    var init := ids[..|ids| - 1];
    var s := AssignNew(init, st);
    assert AssignNew(ids, st) == Number(s, ids[|ids| - 1]);
    AssignNewFacts(init, st);
    NumberExtends(s, ids[|ids| - 1]);
    if j < |ids| - 1 {
      AssignNewInOrder(init, st, i, j);
    } else {
      assert ids[i] == init[i];
      assert ids[j] !in init by {
        forall p | 0 <= p < |init| ensures init[p] != ids[j] {
          assert init[p] == ids[p];
        }
      }
    }
  }

  /**
   * A refresh numbers exactly the present applications: those already
   * numbered keep their ordinal, the new ones get ordinals from the counter
   * on, every ordinal stays below the counter, and the counter never
   * decreases.
   */
  lemma {:induction false} RefreshFacts(ids: seq<string>, st: OrderState)
    requires WellNumbered(st)
    ensures var r := Refresh(ids, st);
      && WellNumbered(r)
      && r.next >= st.next
      && (forall id :: id in r.ordinals <==> id in ids)
      && (forall id :: id in ids && id in st.ordinals ==> r.ordinals[id] == st.ordinals[id])
      && (forall id :: id in ids && id !in st.ordinals ==> st.next <= r.ordinals[id] < r.next)
  {
    AssignNewFacts(ids, st);
    var a := AssignNew(ids, st);
    forall id | id in ids ensures id in a.ordinals {
      var p :| 0 <= p < |ids| && ids[p] == id;
    }
  }

  lemma RefreshWellNumbered(ids: seq<string>, st: OrderState)
    requires WellNumbered(st)
    ensures WellNumbered(Refresh(ids, st))
  {
    RefreshFacts(ids, st);
  }

  /** The ids of a list of entries. */
  function Ids(es: seq<Entry>): (r: seq<string>)
    ensures |r| == |es| && forall i :: 0 <= i < |es| ==> r[i] == es[i].id
  {
    seq(|es|, i requires 0 <= i < |es| => es[i].id)
  }

  /** Sort key of stable-order mode: the ordinal, 0 when none is known. */
  function OrdinalKey(ordinals: map<string, nat>): Entry -> int
  {
    (e: Entry) => if e.id in ordinals then ordinals[e.id] else 0
  }

  /** Sort key of recency mode: most recent first. */
  function RecencyKey(): Entry -> int
  {
    (e: Entry) => -e.time
  }

  /** Projection to the application id. */
  function IdOf(): Entry -> string
  {
    (e: Entry) => e.id
  }

  /** The icons in stable-order mode, for a table already refreshed. */
  function StableOrder(es: seq<Entry>, ordinals: map<string, nat>): seq<string>
  {
    Ids(SortBy(es, OrdinalKey(ordinals)))
  }

  lemma SortedMember(es: seq<Entry>, sorted: seq<Entry>, i: nat)
    requires multiset(sorted) == multiset(es) && i < |sorted|
    ensures sorted[i].id in Ids(es)
  {
    assert sorted[i] in multiset(es);
    var k :| 0 <= k < |es| && es[k] == sorted[i];
    assert Ids(es)[k] == sorted[i].id;
  }

  /**
   * Ordinal stability: two applications that were both numbered before a
   * refresh and are both still present are shown in the order of their old
   * ordinals, whatever their user times.
   */
  lemma {:induction false} StableOrderKeepsOldOrder(ws: seq<Window>, st: OrderState,
                                                    a: string, b: string)
    requires WellNumbered(st)
    requires a in st.ordinals && b in st.ordinals && st.ordinals[a] < st.ordinals[b]
    ensures var es := Dedup(ws);
      var out := StableOrder(es, Refresh(Ids(es), st).ordinals);
      forall i, j :: 0 <= i < |out| && 0 <= j < |out| && out[i] == a && out[j] == b ==> i < j
  {
    var es := Dedup(ws);
    var r := Refresh(Ids(es), st);
    RefreshFacts(Ids(es), st);
    var key := OrdinalKey(r.ordinals);
    var sorted := SortBy(es, key);
    SortByOrders(es, key);
    var out := Ids(sorted);
    forall i, j | 0 <= i < |out| && 0 <= j < |out| && out[i] == a && out[j] == b
      ensures i < j
    {
      SortedMember(es, sorted, i);
      SortedMember(es, sorted, j);
      assert key(sorted[i]) == st.ordinals[a];
      assert key(sorted[j]) == st.ordinals[b];
      SmallerKeyFirst(sorted, key, i, j);
    }
  }

  /**
   * An application seen for the first time is shown after every application
   * that was numbered before the refresh and is still present.
   */
  lemma {:induction false} NewAppsComeLast(ws: seq<Window>, st: OrderState, a: string, b: string)
    requires WellNumbered(st)
    requires a in st.ordinals && b !in st.ordinals
    ensures var es := Dedup(ws);
      var out := StableOrder(es, Refresh(Ids(es), st).ordinals);
      forall i, j :: 0 <= i < |out| && 0 <= j < |out| && out[i] == a && out[j] == b ==> i < j
  {
    var es := Dedup(ws);
    var r := Refresh(Ids(es), st);
    RefreshFacts(Ids(es), st);
    var key := OrdinalKey(r.ordinals);
    var sorted := SortBy(es, key);
    SortByOrders(es, key);
    var out := Ids(sorted);
    forall i, j | 0 <= i < |out| && 0 <= j < |out| && out[i] == a && out[j] == b
      ensures i < j
    {
      SortedMember(es, sorted, i);
      SortedMember(es, sorted, j);
      assert key(sorted[i]) == st.ordinals[a] < st.next;
      assert key(sorted[j]) == r.ordinals[b] >= st.next;
      SmallerKeyFirst(sorted, key, i, j);
    }
  }

  /** Every entry's application has an ordinal. */
  predicate AllNumbered(es: seq<Entry>, ordinals: map<string, nat>)
  {
    forall i :: 0 <= i < |es| ==> es[i].id in ordinals
  }

  lemma PermutationKeepsNumbered(es: seq<Entry>, sorted: seq<Entry>, ordinals: map<string, nat>)
    requires multiset(sorted) == multiset(es) && AllNumbered(es, ordinals)
    ensures AllNumbered(sorted, ordinals)
  {
    forall i | 0 <= i < |sorted| ensures sorted[i].id in ordinals {
      assert sorted[i] in multiset(es);
    }
  }

  /** In a list sorted by ordinal with distinct applications, ordinals strictly increase. */
  lemma StrictlyIncreasing(sorted: seq<Entry>, r: OrderState)
    requires WellNumbered(r) && AllNumbered(sorted, r.ordinals) && DistinctIds(sorted)
    requires SortedBy(sorted, OrdinalKey(r.ordinals))
    ensures forall i, j :: 0 <= i < j < |sorted| ==>
      r.ordinals[sorted[i].id] < r.ordinals[sorted[j].id]
  {
    var key := OrdinalKey(r.ordinals);
    forall i, j | 0 <= i < j < |sorted|
      ensures r.ordinals[sorted[i].id] < r.ordinals[sorted[j].id]
    {
      assert key(sorted[i]) <= key(sorted[j]);
    }
  }

  /**
   * The stable-order output lists every present application exactly once,
   * in strictly increasing ordinal order.
   */
  lemma {:induction false} StableOrderIsStrict(ws: seq<Window>, st: OrderState)
    requires WellNumbered(st)
    ensures var es := Dedup(ws);
      var r := Refresh(Ids(es), st);
      var sorted := SortBy(es, OrdinalKey(r.ordinals));
      && multiset(sorted) == multiset(es)
      && AllNumbered(sorted, r.ordinals)
      && forall i, j :: 0 <= i < j < |sorted| ==>
           r.ordinals[sorted[i].id] < r.ordinals[sorted[j].id]
  {
    var es := Dedup(ws);
    DedupCorrect(ws);
    var r := Refresh(Ids(es), st);
    RefreshFacts(Ids(es), st);
    assert AllNumbered(es, r.ordinals) by {
      forall i | 0 <= i < |es| ensures es[i].id in r.ordinals {
        assert Ids(es)[i] == es[i].id;
      }
    }
    var key := OrdinalKey(r.ordinals);
    var sorted := SortBy(es, key);
    SortByOrders(es, key);
    SortByDistinct(es, key, IdOf());
    assert DistinctIds(sorted) by {
      forall i, j | 0 <= i < j < |sorted| ensures sorted[i].id != sorted[j].id {
        assert IdOf()(sorted[i]) != IdOf()(sorted[j]);
      }
    }
    PermutationKeepsNumbered(es, sorted, r.ordinals);
    StrictlyIncreasing(sorted, r);
  }

  /** Recency mode lists the applications by descending user time, applications
      with equal times in order of first appearance. */
  lemma {:induction false} RecencyOrder(ws: seq<Window>)
    ensures var es := Dedup(ws);
      var sorted := SortBy(es, RecencyKey());
      && multiset(sorted) == multiset(es)
      && (forall i, j :: 0 <= i < j < |sorted| ==> sorted[i].time >= sorted[j].time)
      && (forall k :: WithKey(sorted, RecencyKey(), k) == WithKey(es, RecencyKey(), k))
  {
    var es := Dedup(ws);
    var key := RecencyKey();
    SortByOrders(es, key);
    var sorted := SortBy(es, key);
    forall i, j | 0 <= i < j < |sorted| ensures sorted[i].time >= sorted[j].time {
      assert key(sorted[i]) <= key(sorted[j]);
    }
    forall k ensures WithKey(sorted, key, k) == WithKey(es, key, k) {
      SortByIsStable(es, key, k);
    }
  }
}
