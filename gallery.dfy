/**
 * The page: the avatar list, the owned set, what the container shows and
 * the two counters, and the handlers that update them (script.js:10-11,
 * 18-69, 170-213). The values of the search box and the three selectors are
 * passed in as a `Criteria` each time a handler runs; browser storage is a
 * `Storage` object shared by every load of the page.
 */
module Gallery {
  import opened Wrappers
  import opened Seqs
  import opened Avatars
  import Catalog
  import opened Filtering
  import opened Render
  import opened Ownership

  /** The 'ownedAvatars' entry of the browser's local storage. */
  class Storage {
    var entry: Entry

    constructor (initial: Entry)
      ensures entry == initial
    {
      entry := initial;
    }
  }

  /** The contents of the avatar container. */
  datatype Display = Empty | Showing(view: View) | LoadFailed

  /**
   * The owned-and-matching count of updateCounts (script.js:199-209): the
   * avatars that pass the text, rarity and attribute tests and are owned,
   * whatever the ownership selector says.
   */
  method CountOwnedMatching(catalog: seq<Avatar>, owned: set<string>, c: Criteria) returns (n: nat)
    ensures n == |OwnedMatching(catalog, owned, c)|
    ensures n == |Select(catalog, owned, c.(ownership := "owned"))|
    ensures n <= |catalog|
  {
    n := 0;
    for i := 0 to |catalog|
      invariant n == |OwnedMatching(catalog[..i], owned, c)|
    {
      assert catalog[..i + 1] == catalog[..i] + [catalog[i]];
      FilterAppend(catalog[..i], [catalog[i]], CountTest(owned, c));
      if CountTest(owned, c)(catalog[i]) {
        n := n + 1;
      }
    }
    assert catalog[..|catalog|] == catalog;
    OwnedMatchingIgnoresSelector(catalog, owned, c);
  }

  /**
   * What a click on tile `k` does to the pure state: the owned list stays
   * free of repeats, only `id` changes membership, the marked view stays
   * well formed, and a view that showed `shown` under the old set shows it
   * under the new one exactly when no other shown tile carries `id`.
   */
  lemma ToggleOutcome(order: seq<string>, shown: seq<Avatar>, view: View, k: nat, id: string, flag: bool)
    requires NoDuplicates(order) && WellFormed(view) && k < |Flatten(view)|
    requires id == Flatten(view)[k].id && flag == (id !in order)
    ensures NoDuplicates(Toggled(order, id))
    ensures flag <==> id in IdSet(Toggled(order, id))
    ensures forall x :: x != id ==> (x in IdSet(Toggled(order, id)) <==> x in IdSet(order))
    ensures WellFormed(MarkAt(view, k, flag))
    ensures Renders(view, shown, IdSet(order)) ==>
      (Renders(MarkAt(view, k, flag), shown, IdSet(Toggled(order, id))) <==> OnlyTileOfItsId(shown, k))
    ensures Renders(view, shown, IdSet(order)) && UniqueIds(shown) ==>
      Renders(MarkAt(view, k, flag), shown, IdSet(Toggled(order, id)))
  {
    var after := Toggled(order, id);
    ToggleFlips(order, id, id);
    forall x | x != id
      ensures x in IdSet(after) <==> x in IdSet(order)
    {
      ToggleFlips(order, id, x);
    }
    MarkWellFormed(view, k, flag);
    if Renders(view, shown, IdSet(order)) {
      assert Flatten(view)[k] == TileOf(shown[k], IdSet(order));
      MarkAfterToggle(shown, IdSet(order), IdSet(after), k, view);
      if UniqueIds(shown) {
        UniqueIdsOnlyTile(shown, k);
      }
    }
  }

  class Page {
    var allAvatars: seq<Avatar>
    var ownedAvatars: seq<string>
    var container: Display
    var ownedCount: nat
    var totalCount: nat
    const storage: Storage
    /** The avatars whose tiles the container holds, in order. */
    ghost var shown: seq<Avatar>

    /** The owned set holds each id once, and a rendered container is well formed. */
    ghost predicate Valid()
      reads this
    {
      && NoDuplicates(ownedAvatars)
      && (container.Showing? ==> WellFormed(container.view))
    }

    /**
     * The container holds one tile per shown avatar, in order, and every
     * owned marker agrees with the owned set.
     */
    ghost predicate Consistent()
      reads this
    {
      container.Showing? ==> Renders(container.view, shown, Owned())
    }

    /** The ids `ownedAvatars.has` answers true for. */
    function Owned(): set<string>
      reads this
    {
      IdSet(ownedAvatars)
    }

    /** The page before initializeAvatars runs (script.js:10-11). */
    constructor (storage: Storage)
      ensures Valid()
      ensures allAvatars == [] && ownedAvatars == [] && container == Empty
      ensures this.storage == storage
    {
      allAvatars := [];
      ownedAvatars := [];
      container := Empty;
      shown := [];
      ownedCount := 0;
      totalCount := 0;
      this.storage := storage;
    }

    /**
     * updateCounts (script.js:198-213): the owned counter shows how many
     * owned avatars pass the text, rarity and attribute tests; the total
     * counter shows `displayed`, or the size of the whole list when no
     * count is given.
     */
    method UpdateCounts(c: Criteria, displayed: Option<nat>)
      modifies this
      ensures ownedCount == |OwnedMatching(allAvatars, Owned(), c)|
      ensures totalCount == (if displayed.Some? then displayed.value else |allAvatars|)
      ensures allAvatars == old(allAvatars) && ownedAvatars == old(ownedAvatars) && container == old(container)
      ensures shown == old(shown)
    {
      ownedCount := CountOwnedMatching(allAvatars, Owned(), c);
      totalCount := if displayed.Some? then displayed.value else |allAvatars|;
    }

    /**
     * updateAvatarDisplay (script.js:41-69): the container shows the
     * matching avatars, in list order, grouped by rarity and attribute; the
     * total counter shows how many matched.
     */
    method UpdateAvatarDisplay(c: Criteria)
      requires NoDuplicates(ownedAvatars)
      modifies this
      ensures Valid() && Consistent()
      ensures container.Showing? && shown == Select(allAvatars, Owned(), c)
      ensures UniqueIds(allAvatars) ==> UniqueIds(shown)
      ensures ownedCount == |OwnedMatching(allAvatars, Owned(), c)|
      ensures totalCount == |Select(allAvatars, Owned(), c)|
      ensures allAvatars == old(allAvatars) && ownedAvatars == old(ownedAvatars)
    {
      var filtered := Select(allAvatars, Owned(), c);
      var v := RenderAvatars(filtered, Owned());
      container := Showing(v);
      shown := filtered;
      if UniqueIds(allAvatars) {
        SelectKeepsUniqueIds(allAvatars, Owned(), c);
      }
      UpdateCounts(c, Some(|filtered|));
    }

    /** saveOwnedAvatars (script.js:187-189). */
    method SaveOwned()
      modifies storage
      ensures storage.entry == Save(ownedAvatars)
    {
      storage.entry := Save(ownedAvatars);
    }

    /**
     * loadOwnedAvatars (script.js:191-196): a stored array replaces the
     * owned set, keeping the first occurrence of each id; a missing or empty
     * entry leaves the set alone; text that is not JSON throws, reported as
     * `ok == false`, and leaves the set alone.
     */
    method LoadOwned() returns (ok: bool)
      requires Valid()
      modifies this
      ensures Valid()
      ensures ok <==> !storage.entry.Unparsable?
      ensures storage.entry.IdList? ==> ownedAvatars == Dedup(storage.entry.ids)
      ensures !storage.entry.IdList? ==> ownedAvatars == old(ownedAvatars)
      ensures allAvatars == old(allAvatars) && container == old(container) && shown == old(shown)
      ensures ownedCount == old(ownedCount) && totalCount == old(totalCount)
    {
      match Load(storage.entry)
      case Loaded(order) =>
        ownedAvatars := order;
        ok := true;
      case Kept =>
        ok := true;
      case Thrown =>
        ok := false;
    }

    /**
     * initializeAvatars (script.js:18-39). `response` is the decoded
     * avatars.json, or `None` when the fetch, its status or its decoding
     * failed. The list is sorted by rarity and then attribute, the owned set
     * is loaded, and the page is rendered; any failure shows the error text
     * instead, leaving the counters as they were.
     */
    method Initialize(response: Option<seq<Avatar>>, c: Criteria) returns (ok: bool)
      requires Valid()
      modifies this
      ensures Valid()
      ensures ok <==> response.Some? && !storage.entry.Unparsable?
      ensures response.None? ==> allAvatars == old(allAvatars) && ownedAvatars == old(ownedAvatars)
      ensures response.Some? ==> allAvatars == Catalog.SortAvatars(response.value)
      ensures response.Some? && storage.entry.IdList? ==> ownedAvatars == Dedup(storage.entry.ids)
      ensures !(response.Some? && storage.entry.IdList?) ==> ownedAvatars == old(ownedAvatars)
      ensures !ok ==> container == LoadFailed && ownedCount == old(ownedCount) && totalCount == old(totalCount)
      ensures ok ==> container.Showing? && Consistent() && shown == Select(allAvatars, Owned(), c)
      ensures ok && UniqueIds(allAvatars) ==> UniqueIds(shown)
      ensures ok ==> ownedCount == |OwnedMatching(allAvatars, Owned(), c)| && totalCount == |Select(allAvatars, Owned(), c)|
    {
      if response.None? {
        container := LoadFailed;
        return false;
      }
      var items := response.value;
      var a := new Avatar[|items|](i requires 0 <= i < |items| => items[i]);
      assert a[..] == items;
      Catalog.SortInPlace(a);
      allAvatars := a[..];
      ok := LoadOwned();
      if !ok {
        container := LoadFailed;
        return;
      }
      UpdateAvatarDisplay(c);
    }

    /**
     * toggleOwnership (script.js:170-185) after a click on the tile at
     * position `k` of the container, in document order. The tile's avatar id
     * `id` leaves the owned set if it was in it and joins at the end
     * otherwise; only the clicked tile's 'owned' class changes, to
     * `nowOwned`; the set is saved; the counters are refreshed with the
     * default total, the size of the whole list (script.js:179). The
     * container is not rendered again, so the tile stays even when the
     * ownership selector no longer admits it, and another tile of the same
     * id keeps its old marker.
     */
    method Toggle(k: nat, c: Criteria) returns (id: string, nowOwned: bool)
      requires Valid() && container.Showing? && k < |Flatten(container.view)|
      modifies this, storage
      ensures Valid()
      ensures id == Flatten(old(container).view)[k].id
      ensures ownedAvatars == Toggled(old(ownedAvatars), id)
      ensures nowOwned <==> id !in old(Owned())
      ensures nowOwned <==> id in Owned()
      ensures forall x :: x != id ==> (x in Owned() <==> x in old(Owned()))
      ensures container == Showing(MarkAt(old(container).view, k, nowOwned))
      ensures storage.entry == Save(ownedAvatars)
      ensures ownedCount == |OwnedMatching(allAvatars, Owned(), c)|
      ensures totalCount == |allAvatars|
      ensures allAvatars == old(allAvatars) && shown == old(shown)
      ensures old(Consistent()) ==> (Consistent() <==> OnlyTileOfItsId(shown, k))
      ensures old(Consistent()) && UniqueIds(shown) ==> Consistent()
    {
      var view := container.view;
      id := Flatten(view)[k].id;
      nowOwned := id !in ownedAvatars;
      ToggleOutcome(ownedAvatars, shown, view, k, id, nowOwned);
      ownedAvatars, container := Toggled(ownedAvatars, id), Showing(MarkAt(view, k, nowOwned));
      SaveOwned();
      UpdateCounts(c, None);
    }
  }

  /**
   * Saving the owned set and loading the page again on the same storage
   * restores the set, in its order.
   */
  method Reload(page: Page, response: Option<seq<Avatar>>, c: Criteria) returns (next: Page, ok: bool)
    requires page.Valid()
    modifies page.storage
    ensures fresh(next) && next.storage == page.storage
    ensures ok <==> response.Some?
    ensures ok ==> next.ownedAvatars == page.ownedAvatars
  {
    page.SaveOwned();
    LoadAfterSave(page.ownedAvatars);
    next := new Page(page.storage);
    ok := next.Initialize(response, c);
  }
}
