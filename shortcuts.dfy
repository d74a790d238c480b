/**
 * The five fixed shortcut slots at the bottom of the preview strip. The
 * stored list (a string-list setting) is normalised to exactly five entries;
 * whenever every slot is empty the slots are seeded from the system
 * favourites and the seeded list is written back. Reads that find a slot
 * in use do not follow the favourites; clearing the last slot in use
 * empties every slot, so the next read seeds again from the favourites of
 * that moment.
 */
module Shortcuts {

  const SHORTCUT_SLOTS: nat := 5

  /** The stored list padded with empty strings or truncated to five entries. */
  function Normalize(stored: seq<string>): (r: seq<string>)
    ensures |r| == SHORTCUT_SLOTS
    ensures forall i :: 0 <= i < SHORTCUT_SLOTS ==>
      r[i] == if i < |stored| then stored[i] else ""
  {
    if |stored| < SHORTCUT_SLOTS then stored + Empties(SHORTCUT_SLOTS - |stored|)
    else stored[..SHORTCUT_SLOTS]
  }

  function Empties(k: nat): (r: seq<string>)
    ensures |r| == k && forall i :: 0 <= i < k ==> r[i] == ""
  {
    seq(k, _ => "")
  }

  predicate AllEmpty(ids: seq<string>) { forall i :: 0 <= i < |ids| ==> ids[i] == "" }

  /** The favourites that have an id, in order. */
  function NonEmpty(favorites: seq<string>): seq<string>
  {
    if favorites == [] then []
    else
      var last := favorites[|favorites| - 1];
      NonEmpty(favorites[..|favorites| - 1]) + (if last == "" then [] else [last])
  }

  lemma {:induction false} NonEmptyIds(favorites: seq<string>)
    ensures forall i :: 0 <= i < |NonEmpty(favorites)| ==> NonEmpty(favorites)[i] != ""
    decreases |favorites|
  {
    if favorites != [] {
      NonEmptyIds(favorites[..|favorites| - 1]);
    }
  }

  /** Filtering distributes over concatenation. */
  lemma {:induction false} NonEmptyConcat(a: seq<string>, b: seq<string>)
    ensures NonEmpty(a + b) == NonEmpty(a) + NonEmpty(b)
    decreases |b|
  {
    if b != [] {
      var init := b[..|b| - 1];
      var last := b[|b| - 1];
      var kept := if last == "" then [] else [last];
      NonEmptyConcat(a, init);
      assert (a + b)[..|a + b| - 1] == a + init && (a + b)[|a + b| - 1] == last;
      assert NonEmpty(a + b) == NonEmpty(a + init) + kept;
      assert NonEmpty(b) == NonEmpty(init) + kept;
    } else {
      assert a + b == a;
    }
  }

  /** The first `limit` favourite ids, or all of them when there are fewer. */
  function TakeFavoriteIds(favorites: seq<string>, limit: nat): seq<string>
  {
    var ids := NonEmpty(favorites);
    if |ids| <= limit then ids else ids[..limit]
  }

  /**
   * The seeding loop: walks the favourites in order, keeps those that have
   * an id, and stops as soon as five are kept.
   */
  method CollectFavoriteIds(favorites: seq<string>) returns (fromFavs: seq<string>)
    ensures fromFavs == TakeFavoriteIds(favorites, SHORTCUT_SLOTS)
  {
    fromFavs := [];
    var i := 0;
    while i < |favorites|
      invariant 0 <= i <= |favorites|
      invariant fromFavs == NonEmpty(favorites[..i]) && |fromFavs| < SHORTCUT_SLOTS
    {
      assert favorites[..i + 1][..i] == favorites[..i];
      if favorites[i] != "" {
        fromFavs := fromFavs + [favorites[i]];
      }
      if |fromFavs| >= SHORTCUT_SLOTS {
        assert favorites == favorites[..i + 1] + favorites[i + 1..];
        NonEmptyConcat(favorites[..i + 1], favorites[i + 1..]);
        assert (fromFavs + NonEmpty(favorites[i + 1..]))[..SHORTCUT_SLOTS] == fromFavs;
        return;
      }
      i := i + 1;
    }
    assert favorites[..i] == favorites;
  }

  /** Result of reading the slots: the five ids, and the list written back, if any. */
  datatype Read = Read(ids: seq<string>, written: bool)

  /**
   * Reading the slots: normalise the stored list; if every slot is empty and
   * some favourite has an id, the first (up to five) favourite ids padded to
   * five become the slots and are persisted.
   */
  function GetShortcutAppIds(stored: seq<string>, favorites: seq<string>): (r: Read)
    ensures |r.ids| == SHORTCUT_SLOTS
    ensures !r.written ==> r.ids == Normalize(stored)
    ensures r.written <==> AllEmpty(Normalize(stored)) && NonEmpty(favorites) != []
    ensures r.written ==> !AllEmpty(r.ids)
  {
    var ids := Normalize(stored);
    if AllEmpty(ids) then
      var fromFavs := TakeFavoriteIds(favorites, SHORTCUT_SLOTS);
      if fromFavs != [] then
        var ids := fromFavs + Empties(SHORTCUT_SLOTS - |fromFavs|);
        NonEmptyIds(favorites);
        assert ids[0] != "";
        Read(ids, true)
      else Read(ids, false)
    else Read(ids, false)
  }

  /**
   * The read as the slots are computed step by step: pad or cut the stored
   * list to five, then, when every slot is empty, seed from the favourites.
   */
  method ReadShortcutAppIds(stored: seq<string>, favorites: seq<string>) returns (ids: seq<string>, written: bool)
    ensures Read(ids, written) == GetShortcutAppIds(stored, favorites)
  {
    ids := stored;
    if |ids| < SHORTCUT_SLOTS {
      ids := ids + Empties(SHORTCUT_SLOTS - |ids|);
    } else if |ids| > SHORTCUT_SLOTS {
      ids := ids[..SHORTCUT_SLOTS];
    }
    assert ids == Normalize(stored);
    written := false;
    if AllEmpty(ids) {
      var fromFavs := CollectFavoriteIds(favorites);
      if |fromFavs| > 0 {
        ids := fromFavs + Empties(SHORTCUT_SLOTS - |fromFavs|);
        written := true;
      }
    }
  }

  /** The stored list after a read: the seeded list when it was persisted. */
  function StoredAfterRead(stored: seq<string>, favorites: seq<string>): seq<string>
  {
    var r := GetShortcutAppIds(stored, favorites);
    if r.written then r.ids else stored
  }

  /**
   * Seeding: with every slot empty and favourites available, the slots are
   * the first favourite ids (at most five, in order) followed by empty slots.
   */
  lemma {:induction false} SeedFromFavorites(stored: seq<string>, favorites: seq<string>)
    requires AllEmpty(Normalize(stored)) && NonEmpty(favorites) != []
    ensures var r := GetShortcutAppIds(stored, favorites);
      var k := if |NonEmpty(favorites)| < 5 then |NonEmpty(favorites)| else 5;
      && r.written
      && r.ids[..k] == NonEmpty(favorites)[..k]
      && forall i :: k <= i < 5 ==> r.ids[i] == ""
  {
    var fromFavs := TakeFavoriteIds(favorites, SHORTCUT_SLOTS);
    var r := GetShortcutAppIds(stored, favorites);
    assert r.ids == fromFavs + Empties(SHORTCUT_SLOTS - |fromFavs|);
  }

  /**
   * A seeded list sticks: reading again after it was persisted returns the
   * same slots without writing, whatever the favourites are now.
   */
  lemma {:induction false} SeedPersists(stored: seq<string>, favorites: seq<string>,
                                        laterFavorites: seq<string>)
    requires GetShortcutAppIds(stored, favorites).written
    ensures var first := GetShortcutAppIds(stored, favorites);
      var second := GetShortcutAppIds(StoredAfterRead(stored, favorites), laterFavorites);
      second.ids == first.ids && !second.written
  {
    var first := GetShortcutAppIds(stored, favorites);
    assert Normalize(first.ids) == first.ids;
  }

  /**
   * Writing one slot: the slots are read (which may seed and persist them),
   * an index outside [0, 5) changes nothing more, otherwise that slot gets
   * `appId` (empty for no app) and the five slots are persisted. The result
   * is the stored list afterwards.
   */
  function SetShortcutAt(stored: seq<string>, favorites: seq<string>, index: int,
                         appId: string): (r: seq<string>)
    ensures !(0 <= index < SHORTCUT_SLOTS) ==> r == StoredAfterRead(stored, favorites)
    ensures 0 <= index < SHORTCUT_SLOTS ==>
      var ids := GetShortcutAppIds(stored, favorites).ids;
      && |r| == SHORTCUT_SLOTS
      && r[index] == appId
      && forall j :: 0 <= j < SHORTCUT_SLOTS && j != index ==> r[j] == ids[j]
  {
    var read := GetShortcutAppIds(stored, favorites);
    if index < 0 || index >= SHORTCUT_SLOTS then StoredAfterRead(stored, favorites)
    else read.ids[index := appId]
  }

  /**
   * A slot set to an app is read back as that app, and the other slots read
   * back as they were before the write.
   */
  lemma {:induction false} SetThenGet(stored: seq<string>, favorites: seq<string>, index: int,
                                      appId: string, laterFavorites: seq<string>)
    requires 0 <= index < SHORTCUT_SLOTS && appId != ""
    ensures var before := GetShortcutAppIds(stored, favorites).ids;
      var after := GetShortcutAppIds(SetShortcutAt(stored, favorites, index, appId),
                                     laterFavorites);
      && !after.written
      && after.ids[index] == appId
      && forall j :: 0 <= j < SHORTCUT_SLOTS && j != index ==> after.ids[j] == before[j]
  {
    var r := SetShortcutAt(stored, favorites, index, appId);
    assert Normalize(r) == r;
    assert !AllEmpty(r) by { assert r[index] != ""; }
  }

  /**
   * Clearing the only slot still in use does not leave the slots empty: the
   * next read finds every slot empty and seeds again from the favourites of
   * that moment, exactly as a first read of an empty list would.
   */
  lemma {:induction false} ClearingLastSlotReseeds(stored: seq<string>, favorites: seq<string>, index: int,
                                                   laterFavorites: seq<string>)
    requires 0 <= index < SHORTCUT_SLOTS
    requires forall j :: 0 <= j < SHORTCUT_SLOTS && j != index ==> GetShortcutAppIds(stored, favorites).ids[j] == ""
    requires NonEmpty(laterFavorites) != []
    ensures var after := GetShortcutAppIds(SetShortcutAt(stored, favorites, index, ""), laterFavorites);
      after.written && after == GetShortcutAppIds([], laterFavorites)
  {
    var r := SetShortcutAt(stored, favorites, index, "");
    assert AllEmpty(r);
    assert Normalize(r) == r;
    assert AllEmpty(Normalize([]));
  }
}
