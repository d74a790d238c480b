/**
 * The icon animator of the panel manager: one shared timeline drives every
 * long-running icon animation so that they stay in step. Animations are kept
 * in a table from animation name to the list of animated targets; a target
 * runs at most one animation at a time. The timeline plays exactly when the
 * animator has been started and at least one animation is registered.
 *
 * Targets are identified by a number (the actor's identity).
 */
module IconAnimation {

  /** No target appears twice in one animation list. */
  predicate NoDup(s: seq<nat>)
  {
    forall i, j :: 0 <= i < j < |s| ==> s[i] != s[j]
  }

  /** No name appears twice in the name list. */
  predicate DistinctNames(names: seq<string>)
  {
    forall i, j :: 0 <= i < j < |names| ==> names[i] != names[j]
  }

  /** `s` with the first occurrence of `t` spliced out. */
  function Without(s: seq<nat>, t: nat): (r: seq<nat>)
    ensures |r| == (if t in s then |s| - 1 else |s|)
    ensures t !in s ==> r == s
  {
    if s == [] then []
    else if s[0] == t then s[1..]
    else [s[0]] + Without(s[1..], t)
  }

  /**
   * Splicing out keeps every other member, adds none, and from a list
   * without duplicates removes the only occurrence and leaves a list
   * without duplicates.
   */
  lemma {:induction false} WithoutMembers(s: seq<nat>, t: nat)
    ensures forall x :: x in Without(s, t) ==> x in s
    ensures forall x :: x in s && x != t ==> x in Without(s, t)
    ensures NoDup(s) ==> t !in Without(s, t) && NoDup(Without(s, t))
  {
    if s != [] {
      assert NoDup(s) ==> NoDup(s[1..]);
      if s[0] != t {
        WithoutMembers(s[1..], t);
        var rest := Without(s[1..], t);
        assert Without(s, t) == [s[0]] + rest;
        if NoDup(s) {
          assert s[0] !in rest;
          forall i, j | 0 <= i < j < |[s[0]] + rest| ensures ([s[0]] + rest)[i] != ([s[0]] + rest)[j] {
            if i > 0 {
              assert ([s[0]] + rest)[i] == rest[i - 1];
            }
          }
        }
      }
    }
  }

  /** Splicing out the first occurrence found by a left-to-right scan is `Without`. */
  lemma {:induction false} WithoutAt(s: seq<nat>, t: nat, i: nat)
    requires i < |s| && s[i] == t
    requires forall k :: 0 <= k < i ==> s[k] != t
    ensures Without(s, t) == s[..i] + s[i + 1..]
  {
    if i > 0 {
      WithoutAt(s[1..], t, i - 1);
      assert s[1..][..i - 1] == s[1..i];
      assert s[1..][i - 1 + 1..] == s[i + 1..];
      assert s[..i] == [s[0]] + s[1..i];
    }
  }

  /** The number of (target, name) pairs over the lists of `names`. */
  function Total(names: seq<string>, anims: map<string, seq<nat>>): nat
    requires forall n :: n in names ==> n in anims
  {
    if names == [] then 0
    else Total(names[..|names| - 1], anims) + |anims[names[|names| - 1]]|
  }

  /** Replacing one list changes the total by the difference in length. */
  lemma {:induction false} TotalUpdate(names: seq<string>, anims: map<string, seq<nat>>, name: string, s: seq<nat>)
    requires forall n :: n in names ==> n in anims
    requires DistinctNames(names) && name in names
    ensures Total(names, anims[name := s]) == Total(names, anims) - |anims[name]| + |s|
  {
    var last := names[|names| - 1];
    var init := names[..|names| - 1];
    assert forall n :: n in init ==> n in names;
    if last == name {
      assert name !in init;
      TotalUnchanged(init, anims, name, s);
    } else {
      assert name in init;
      TotalUpdate(init, anims, name, s);
    }
  }

  /** Replacing a list outside `names` leaves the total unchanged. */
  lemma {:induction false} TotalUnchanged(names: seq<string>, anims: map<string, seq<nat>>, name: string, s: seq<nat>)
    requires forall n :: n in names ==> n in anims
    requires name !in names
    ensures Total(names, anims[name := s]) == Total(names, anims)
  {
    if names != [] {
      var init := names[..|names| - 1];
      assert forall n :: n in init ==> n in names;
      TotalUnchanged(init, anims, name, s);
    }
  }

  /**
   * The table after `target` is added under `name`: it is spliced out of
   * every list and pushed at the end of the `name` list.
   */
  function Added(anims: map<string, seq<nat>>, target: nat, name: string): map<string, seq<nat>>
  {
    map n | n in anims :: Without(anims[n], target) + (if n == name then [target] else [])
  }

  /**
   * After an addition the target runs exactly one animation, the requested
   * one, at the end of its list; every other registered target keeps its
   * place in its list. Adding it again finds it in the requested list.
   */
  lemma AddedFacts(anims: map<string, seq<nat>>, target: nat, name: string)
    requires name in anims
    requires forall n :: n in anims ==> NoDup(anims[n])
    ensures var r := Added(anims, target, name);
      && r.Keys == anims.Keys
      && target in r[name] && r[name][|r[name]| - 1] == target
      && (forall n :: n in r && n != name ==> target !in r[n])
      && (forall n :: n in r ==> NoDup(r[n]))
      && (forall n, x :: n in anims && x in anims[n] && x != target ==> x in r[n])
  {
    var r := Added(anims, target, name);
    forall n | n in anims
      ensures NoDup(r[n])
      ensures forall x :: x in anims[n] && x != target ==> x in r[n]
      ensures n != name ==> target !in r[n]
    {
      WithoutMembers(anims[n], target);
      var w := Without(anims[n], target);
      assert target !in w;
      if n == name {
        assert r[n] == w + [target];
        forall i, j | 0 <= i < j < |r[n]| ensures r[n][i] != r[n][j] {
          if j == |w| {
            assert r[n][i] == w[i];
          } else {
            assert r[n][i] == w[i] && r[n][j] == w[j];
          }
        }
      }
    }
  }

  /** Splicing `target` out of every list and then pushing it on the `name` list is `Added`. */
  lemma AddedAfterRemovals(anims: map<string, seq<nat>>, removed: map<string, seq<nat>>, target: nat, name: string)
    requires name in anims && removed.Keys == anims.Keys
    requires forall n :: n in removed ==> removed[n] == Without(anims[n], target)
    ensures removed[name := removed[name] + [target]] == Added(anims, target, name)
  {
    var l := removed[name := removed[name] + [target]];
    var r := Added(anims, target, name);
    assert l.Keys == r.Keys;
    forall n | n in l
      ensures l[n] == r[n]
    {
    }
  }

  /**
   * Scans a list for the first pair of `target` and splices it out; the
   * list is returned unchanged when there is none.
   */
  method SpliceOut(pairs: seq<nat>, target: nat) returns (rest: seq<nat>, found: bool)
    ensures found <==> target in pairs
    ensures rest == Without(pairs, target)
  {
    var i := 0;
    while i < |pairs|
      invariant 0 <= i <= |pairs|
      invariant forall k :: 0 <= k < i ==> pairs[k] != target
    {
      if pairs[i] == target {
        WithoutAt(pairs, target, i);
        return pairs[..i] + pairs[i + 1..], true;
      }
      i := i + 1;
    }
    return pairs, false;
  }

  /** Every list free of duplicates, and no target in two lists. */
  ghost predicate WellFormedTable(anims: map<string, seq<nat>>)
  {
    && (forall n :: n in anims ==> NoDup(anims[n]))
    && (forall n1, n2, t :: n1 in anims && n2 in anims && n1 != n2 && t in anims[n1] ==> t !in anims[n2])
  }

  /** An addition keeps the table well formed. */
  lemma AddedWellFormed(anims: map<string, seq<nat>>, target: nat, name: string)
    requires name in anims && WellFormedTable(anims)
    ensures WellFormedTable(Added(anims, target, name))
  {
    AddedFacts(anims, target, name);
    var r := Added(anims, target, name);
    forall n1, n2, t | n1 in r && n2 in r && n1 != n2 && t in r[n1]
      ensures t !in r[n2]
    {
      WithoutMembers(anims[n1], target);
      WithoutMembers(anims[n2], target);
      if t != target {
        assert t in Without(anims[n1], target) by {
          if n1 == name {
            assert r[n1] == Without(anims[n1], target) + [target];
          }
        }
        if t in r[n2] {
          assert t in Without(anims[n2], target) by {
            if n2 == name {
              assert r[n2] == Without(anims[n2], target) + [target];
            }
          }
        }
      }
    }
  }

  /** A removal keeps the table well formed. */
  lemma RemovedWellFormed(anims: map<string, seq<nat>>, target: nat, name: string)
    requires name in anims && WellFormedTable(anims)
    ensures WellFormedTable(anims[name := Without(anims[name], target)])
  {
    WithoutMembers(anims[name], target);
  }

  /** Replacing the list of one name leaves the lists of the other names alone. */
  lemma UpdateOneName(names: seq<string>, anims: map<string, seq<nat>>, i: nat, s: seq<nat>)
    requires DistinctNames(names) && i < |names|
    requires forall n :: n in names ==> n in anims
    ensures forall k :: 0 <= k < |names| && k != i ==> anims[names[i] := s][names[k]] == anims[names[k]]
  {
    forall k | 0 <= k < |names| && k != i
      ensures names[k] != names[i]
    {
      if k < i { assert names[k] != names[i]; } else { assert names[i] != names[k]; }
    }
  }

  /**
   * The state of the scan of an addition after `i` names: the target has
   * been spliced out of the lists of those names, the others are untouched,
   * `removed` pairs are gone, and when the target runs the requested
   * animation nothing has changed and its name is still ahead.
   */
  ghost predicate ScannedUpTo(names: seq<string>, anims: map<string, seq<nat>>, target: nat, name: string,
                              i: int, r: map<string, seq<nat>>, removed: int)
    requires forall n :: n in names ==> n in anims
  {
    && 0 <= i <= |names|
    && r.Keys == anims.Keys
    && (forall k :: 0 <= k < |names| ==>
          r[names[k]] == (if k < i then Without(anims[names[k]], target) else anims[names[k]]))
    && 0 <= removed && Total(names, r) == Total(names, anims) - removed
    && (name in anims && target in anims[name] ==> r == anims && forall k :: 0 <= k < i ==> names[k] != name)
  }

  /**
   * One step of the scan of an addition: finding the target in the `name`
   * list stops the scan; finding it in another list splices it out.
   */
  method ScanName(names: seq<string>, anims: map<string, seq<nat>>, target: nat, name: string,
                  i: int, r: map<string, seq<nat>>, removed: int)
    returns (r': map<string, seq<nat>>, removed': int, found: bool)
    requires forall n :: n in names ==> n in anims
    requires DistinctNames(names) && name in anims && i < |names|
    requires target in anims[name] ==> forall n :: n in anims && n != name ==> target !in anims[n]
    requires ScannedUpTo(names, anims, target, name, i, r, removed)
    ensures found <==> names[i] == name && target in anims[name]
    ensures found ==> r' == anims && removed' == removed
    ensures !found ==> ScannedUpTo(names, anims, target, name, i + 1, r', removed')
  {
    var n := names[i];
    r', removed' := r, removed;
    if target in r[n] {
      if n == name {
        return r, removed, true;
      }
      var rest, _ := SpliceOut(r[n], target);
      TotalUpdate(names, r, n, rest);
      UpdateOneName(names, r, i, rest);
      r' := r[n := rest];
      removed' := removed + 1;
    } else {
      assert Without(anims[n], target) == anims[n];
    }
    found := false;
  }

  /**
   * The scan of an addition over the animation names: it stops as soon as
   * the target is found in the `name` list, and splices it out of every
   * other list it is found in, counting the removals.
   */
  method SpliceOutEverywhere(names: seq<string>, anims: map<string, seq<nat>>, target: nat, name: string)
    returns (r: map<string, seq<nat>>, removed: int, already: bool)
    requires forall n :: n in names ==> n in anims
    requires forall n :: n in anims ==> n in names
    requires DistinctNames(names) && name in anims
    requires target in anims[name] ==> forall n :: n in anims && n != name ==> target !in anims[n]
    ensures already <==> target in anims[name]
    ensures already ==> r == anims
    ensures !already ==> r.Keys == anims.Keys && forall n :: n in r ==> r[n] == Without(anims[n], target)
    ensures forall n :: n in names ==> n in r
    ensures 0 <= removed && Total(names, r) == Total(names, anims) - removed
  {
    r := anims;
    removed := 0;
    var i := 0;
    while i < |names|
      invariant ScannedUpTo(names, anims, target, name, i, r, removed)
    {
      var found;
      r, removed, found := ScanName(names, anims, target, name, i, r, removed);
      if found {
        return r, removed, true;
      }
      i := i + 1;
    }
    return r, removed, false;
  }

  /**
   * The animator's invariant: the table has exactly the given names, the
   * count is the number of pairs, the timeline plays exactly when started
   * with something to animate, and the table is well formed.
   */
  ghost predicate AnimatorInvariant(names: seq<string>, anims: map<string, seq<nat>>, count: int,
                                    started: bool, running: bool)
  {
    && (forall n :: n in names ==> n in anims)
    && (forall n :: n in anims ==> n in names)
    && DistinctNames(names)
    && count == Total(names, anims)
    && running == (started && count > 0)
    && WellFormedTable(anims)
  }

  /** An addition of a target not yet running `name` keeps the invariant:
      the count grows by one over what the removals left, and a started
      animator's timeline plays. */
  lemma AddedKeepsInvariant(names: seq<string>, anims: map<string, seq<nat>>, count: int, started: bool,
                            running: bool, target: nat, name: string, r: map<string, seq<nat>>, removed: int)
    requires AnimatorInvariant(names, anims, count, started, running)
    requires name in anims && target !in anims[name]
    requires r.Keys == anims.Keys && forall n :: n in r ==> r[n] == Without(anims[n], target)
    requires 0 <= removed && Total(names, r) == Total(names, anims) - removed
    ensures r[name := r[name] + [target]] == Added(anims, target, name)
    ensures AnimatorInvariant(names, Added(anims, target, name), count - removed + 1, started, started)
  {
    AddedAfterRemovals(anims, r, target, name);
    AddedWellFormed(anims, target, name);
    TotalUpdate(names, r, name, r[name] + [target]);
  }

  /**
   * One addition on the animator's state: nothing changes when `target`
   * already runs `name`; otherwise it is spliced out of every list, appended
   * to the `name` list, the count follows, and the timeline is stopped by a
   * removal that leaves nothing and started again by the push.
   */
  method AddTo(names: seq<string>, anims: map<string, seq<nat>>, count: int, started: bool, running: bool,
               target: nat, name: string)
    returns (anims': map<string, seq<nat>>, count': int, running': bool)
    requires AnimatorInvariant(names, anims, count, started, running) && name in anims
    ensures AnimatorInvariant(names, anims', count', started, running')
    ensures target in anims[name] ==> anims' == anims && count' == count && running' == running
    ensures target !in anims[name] ==> anims' == Added(anims, target, name)
  {
    var r, removed, already := SpliceOutEverywhere(names, anims, target, name);
    if already {
      return anims, count, running;
    }
    AddedKeepsInvariant(names, anims, count, started, running, target, name, r, removed);
    count' := count - removed;
    running' := running;
    if started && count' == 0 {
      running' := false;
    }
    if started && count' == 0 {
      running' := true;
    }
    count' := count' + 1;
    anims' := r[name := r[name] + [target]];
  }

  class IconAnimator {
    /** The animation names of the table (only "dance" is ever created). */
    const names: seq<string>
    /** Animation name to the targets running it, in registration order. */
    var animations: map<string, seq<nat>>
    /** The number of registered animations. */
    var count: int
    /** Whether the animator has been started (the overview is showing). */
    var started: bool
    /** Whether the shared timeline is playing. */
    var timelineRunning: bool

    ghost predicate Valid()
      reads this
    {
      AnimatorInvariant(names, animations, count, started, timelineRunning)
    }

    /** A new animator has an empty "dance" list, a zero count and is not started. */
    constructor ()
      ensures Valid()
      ensures names == ["dance"] && animations == map["dance" := []]
      ensures count == 0 && !started && !timelineRunning
    {
      names := ["dance"];
      animations := map["dance" := []];
      count := 0;
      started := false;
      timelineRunning := false;
    }

    /** Stops the timeline if it was playing; the animator is no longer started. */
    method Pause()
      requires Valid()
      modifies this`started, this`timelineRunning
      ensures Valid() && !started && !timelineRunning
    {
      if started && count > 0 {
        timelineRunning := false;
      }
      started := false;
    }

    /** Plays the timeline if there is something to animate; the animator is started. */
    method Start()
      requires Valid()
      modifies this`started, this`timelineRunning
      ensures Valid() && started && timelineRunning == (count > 0)
    {
      if !started && count > 0 {
        timelineRunning := true;
      }
      started := true;
    }

    /**
     * Removes the first pair for `target` from the `name` list; the count
     * drops by one and the timeline stops when nothing is left. An absent
     * target changes nothing.
     */
    method RemoveAnimation(target: nat, name: string)
      requires Valid() && name in animations
      modifies this`animations, this`count, this`timelineRunning
      ensures Valid()
      ensures animations == old(animations)[name := Without(old(animations)[name], target)]
      ensures count == old(count) - (if target in old(animations)[name] then 1 else 0)
      ensures target !in old(animations)[name] ==> animations == old(animations) && count == old(count)
    {
      var rest, found := SpliceOut(animations[name], target);
      if found {
        TotalUpdate(names, animations, name, rest);
        RemovedWellFormed(animations, target, name);
        animations := animations[name := rest];
        count := count - 1;
        if started && count == 0 {
          timelineRunning := false;
        }
      } else {
        assert animations[name := rest] == animations;
      }
    }

    /**
     * Makes `target` run the `name` animation: nothing happens when it
     * already does; otherwise it is first removed from every list it is
     * in, then appended to the `name` list, the count grows by one and the
     * timeline plays when the animator is started.
     */
    method AddAnimation(target: nat, name: string)
      requires Valid() && name in animations
      modifies this`animations, this`count, this`timelineRunning
      ensures Valid()
      ensures target in old(animations)[name] ==> animations == old(animations) && count == old(count)
      ensures target !in old(animations)[name] ==> animations == Added(old(animations), target, name)
    {
      animations, count, timelineRunning := AddTo(names, animations, count, started, timelineRunning, target, name);
    }
  }
}
