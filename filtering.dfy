/**
 * The filter of updateAvatarDisplay (script.js:41-69) and the owned-count filter
 * of updateCounts (script.js:198-213): a conjunction of a text test, a rarity
 * test, an attribute test and (for the display only) an ownership test,
 * applied to the catalog in order.
 */
module Filtering {
  import opened Avatars
  import opened Seqs
  import Catalog

  /** The values of the search box and of the three selectors when the filter runs. */
  datatype Criteria = Criteria(search: string, rarity: string, attribute: string, ownership: string)

  /** ASCII lower-casing of one character: the stand-in for `toLowerCase`. */
  function LowerChar(c: char): char {
    if 'A' <= c <= 'Z' then (c as int + 32) as char else c
  }

  function Lower(s: string): string {
    seq(|s|, i requires 0 <= i < |s| => LowerChar(s[i]))
  }

  /** Lower-casing keeps the length and is idempotent, so a lowered query lowers to itself. */
  lemma LowerFacts(s: string)
    ensures |Lower(s)| == |s|
    ensures Lower(s) == [] <==> s == []
    ensures Lower(Lower(s)) == Lower(s)
  {
  }

  /** `s.includes(t)`: `t` occurs in `s` as a contiguous block. */
  predicate Contains(s: string, t: string)
    decreases |s|
  {
    |t| <= |s| && (s[..|t|] == t || Contains(s[1..], t))
  }

  /** `t` occurs in `s` starting at position `i`. */
  predicate OccursAt(s: string, t: string, i: nat) {
    i + |t| <= |s| && s[i..i + |t|] == t
  }

  /** `Contains` finds an occurrence at some position, and an occurrence at any position is found. */
  lemma {:induction false} ContainsIff(s: string, t: string)
    ensures Contains(s, t) <==> exists i: nat :: OccursAt(s, t, i)
    decreases |s|
  {
    if |t| <= |s| {
      if s[..|t|] == t {
        assert OccursAt(s, t, 0);
      } else {
        ContainsIff(s[1..], t);
        if exists i: nat :: OccursAt(s, t, i) {
          var i: nat :| OccursAt(s, t, i);
          assert i != 0;
          assert s[1..][i - 1..i - 1 + |t|] == s[i..i + |t|];
          assert OccursAt(s[1..], t, i - 1);
        }
        if Contains(s[1..], t) {
          var i: nat :| OccursAt(s[1..], t, i);
          assert s[1..][i..i + |t|] == s[i + 1..i + 1 + |t|];
          assert OccursAt(s, t, i + 1);
        }
      }
    }
  }

  /** The text test: an empty query passes; otherwise the lower-cased name contains the lower-cased query. */
  predicate PassesText(a: Avatar, search: string) {
    var q := Lower(search);
    q == [] || Contains(Lower(a.name), q)
  }

  predicate PassesRarity(a: Avatar, selected: string) {
    selected == "all" || RarityCode(a.rarity) == selected
  }

  predicate PassesAttribute(a: Avatar, selected: string) {
    selected == "all" || AttributeCode(a.attribute) == selected
  }

  /** 'owned' keeps owned avatars, 'not-owned' the others; any other value keeps everything. */
  predicate PassesOwnership(isOwned: bool, selected: string) {
    !(selected == "owned" && !isOwned) && !(selected == "not-owned" && isOwned)
  }

  /** The callback given to `allAvatars.filter` (script.js:47-65). */
  predicate Matches(a: Avatar, owned: set<string>, c: Criteria) {
    && PassesText(a, c.search)
    && PassesRarity(a, c.rarity)
    && PassesAttribute(a, c.attribute)
    && PassesOwnership(a.id in owned, c.ownership)
  }

  /** `Matches` as the callback value handed to the filter. */
  function MatchTest(owned: set<string>, c: Criteria): Avatar -> bool {
    (a: Avatar) => Matches(a, owned, c)
  }

  /** The list updateAvatarDisplay renders: the catalog items that match, in catalog order. */
  function Select(catalog: seq<Avatar>, owned: set<string>, c: Criteria): seq<Avatar> {
    Filter(catalog, MatchTest(owned, c))
  }

  /**
   * An avatar is shown iff it is in the catalog and passes all four tests:
   * the text, the rarity, the attribute, and the ownership selector.
   */
  lemma SelectMembers(catalog: seq<Avatar>, owned: set<string>, c: Criteria, a: Avatar)
    ensures a in Select(catalog, owned, c) <==>
      && a in catalog
      && (c.search == [] || Contains(Lower(a.name), Lower(c.search)))
      && (c.rarity == "all" || RarityCode(a.rarity) == c.rarity)
      && (c.attribute == "all" || AttributeCode(a.attribute) == c.attribute)
      && (c.ownership == "owned" ==> a.id in owned)
      && (c.ownership == "not-owned" ==> a.id !in owned)
  {
    LowerFacts(c.search);
    var r := Select(catalog, owned, c);
    if a in r {
      var i :| 0 <= i < |r| && r[i] == a;
    }
    if a in catalog && Matches(a, owned, c) {
      var i :| 0 <= i < |catalog| && catalog[i] == a;
    }
  }

  /** Filtering a list whose ids are distinct gives a list whose ids are distinct. */
  lemma {:induction false} FilterKeepsUniqueIds(s: seq<Avatar>, p: Avatar -> bool)
    requires UniqueIds(s)
    ensures UniqueIds(Filter(s, p))
  {
    if s != [] {
      var rest := Filter(s[1..], p);
      assert UniqueIds(s[1..]) by {
        forall i, j | 0 <= i < j < |s| - 1 ensures s[1..][i].id != s[1..][j].id {
          assert s[1..][i] == s[i + 1] && s[1..][j] == s[j + 1];
        }
      }
      FilterKeepsUniqueIds(s[1..], p);
      if p(s[0]) {
        forall j | 0 <= j < |rest| ensures s[0].id != rest[j].id {
          var m :| 0 <= m < |s[1..]| && s[1..][m] == rest[j];
          assert rest[j] == s[m + 1];
        }
        var r := [s[0]] + rest;
        forall i, j | 0 <= i < j < |r| ensures r[i].id != r[j].id {
          assert r[j] == rest[j - 1];
          if i > 0 {
            assert r[i] == rest[i - 1];
          }
        }
      }
    }
  }

  /** The shown list of a catalog with distinct ids has distinct ids. */
  lemma SelectKeepsUniqueIds(catalog: seq<Avatar>, owned: set<string>, c: Criteria)
    requires UniqueIds(catalog)
    ensures UniqueIds(Select(catalog, owned, c))
  {
    FilterKeepsUniqueIds(catalog, MatchTest(owned, c));
  }

  /** The shown list keeps the catalog order: it is a subsequence of the catalog. */
  lemma SelectIsSubsequence(catalog: seq<Avatar>, owned: set<string>, c: Criteria)
    ensures IsSubsequence(Select(catalog, owned, c), catalog)
  {
    FilterIsSubsequence(catalog, MatchTest(owned, c));
  }

  /** With an empty query, both selectors at 'all' and no ownership constraint, the whole catalog is shown. */
  lemma SelectUnconstrained(catalog: seq<Avatar>, owned: set<string>, c: Criteria)
    requires c.search == [] && c.rarity == "all" && c.attribute == "all"
    requires c.ownership != "owned" && c.ownership != "not-owned"
    ensures Select(catalog, owned, c) == catalog
  {
    FilterAll(catalog, MatchTest(owned, c));
  }

  /** Filtering a sorted list leaves it sorted: the groups are rendered without a re-sort. */
  lemma {:induction false} FilterKeepsSorted(s: seq<Avatar>, p: Avatar -> bool)
    requires Catalog.Sorted(s)
    ensures Catalog.Sorted(Filter(s, p))
  {
    if s != [] {
      Catalog.SortedTail(s);
      FilterKeepsSorted(s[1..], p);
      var tail := Filter(s[1..], p);
      if p(s[0]) {
        forall y | y in tail ensures Compare(s[0], y) <= 0 {
          Catalog.HeadIsLeast(s, y);
        }
        Catalog.SortedCons(s[0], tail);
      }
    }
  }

  lemma SelectKeepsSorted(catalog: seq<Avatar>, owned: set<string>, c: Criteria)
    requires Catalog.Sorted(catalog)
    ensures Catalog.Sorted(Select(catalog, owned, c))
  {
    FilterKeepsSorted(catalog, MatchTest(owned, c));
  }

  /** The avatars updateCounts counts: text, rarity and attribute tests passed, and owned. */
  function CountTest(owned: set<string>, c: Criteria): Avatar -> bool {
    (a: Avatar) => PassesText(a, c.search) && PassesRarity(a, c.rarity) && PassesAttribute(a, c.attribute) && a.id in owned
  }

  function OwnedMatching(catalog: seq<Avatar>, owned: set<string>, c: Criteria): seq<Avatar> {
    Filter(catalog, CountTest(owned, c))
  }

  /**
   * The owned counter ignores the ownership selector: whatever it is set to,
   * the counted avatars are those shown when it is set to 'owned'.
   */
  lemma OwnedMatchingIgnoresSelector(catalog: seq<Avatar>, owned: set<string>, c: Criteria)
    ensures OwnedMatching(catalog, owned, c) == Select(catalog, owned, c.(ownership := "owned"))
  {
    FilterAgree(catalog, CountTest(owned, c), MatchTest(owned, c.(ownership := "owned")));
  }

  /**
   * Owned plus not-owned: the avatars the 'owned' and 'not-owned' selectors
   * show together number those shown with no ownership constraint.
   */
  lemma OwnershipSplit(catalog: seq<Avatar>, owned: set<string>, c: Criteria)
    requires c.ownership != "owned" && c.ownership != "not-owned"
    ensures |Select(catalog, owned, c)|
         == |OwnedMatching(catalog, owned, c)| + |Select(catalog, owned, c.(ownership := "not-owned"))|
  {
    FilterSplitCount(catalog, MatchTest(owned, c), CountTest(owned, c), MatchTest(owned, c.(ownership := "not-owned")));
  }
}
