/**
 * The owned-avatar set (script.js:11) and its saved form (script.js:187-196).
 * A JavaScript Set iterates in insertion order, and `Array.from` and
 * `JSON.stringify` keep that order, so the set is a sequence of distinct ids:
 * `add` appends an id that is not yet present, `delete` removes one and keeps
 * the others in order, and `new Set(array)` keeps the first occurrence of
 * each id.
 */
module Ownership {
  import opened Seqs

  /** The ids held by an insertion-ordered set. */
  function IdSet(s: seq<string>): set<string> {
    set x | x in s
  }

  /** `Set.prototype.delete`: the set without `id`, the others in their order. */
  function Without(s: seq<string>, id: string): (r: seq<string>)
    ensures r == Filter(s, (x: string) => x != id)
    ensures forall x :: x in r <==> x in s && x != id
    ensures NoDuplicates(s) ==> NoDuplicates(r)
    ensures id !in s ==> r == s
  {
    if s == [] then []
    else
      var rest := Without(s[1..], id);
      assert s == [s[0]] + s[1..];
      if s[0] == id then
        assert NoDuplicates(s) ==> NoDuplicates(s[1..]) by { if NoDuplicates(s) { NoDuplicatesTail(s); } }
        rest
      else
        assert NoDuplicates(s) ==> NoDuplicates([s[0]] + rest) by {
          if NoDuplicates(s) {
            NoDuplicatesTail(s);
            NoDuplicatesCons(s[0], rest);
          }
        }
        [s[0]] + rest
  }

  lemma NoDuplicatesTail(s: seq<string>)
    requires s != [] && NoDuplicates(s)
    ensures NoDuplicates(s[1..]) && s[0] !in s[1..]
  {
    forall i | 0 <= i < |s| - 1 ensures s[1..][i] != s[0] {
      assert s[1..][i] == s[i + 1];
    }
    forall i, j | 0 <= i < j < |s| - 1 ensures s[1..][i] != s[1..][j] {
      assert s[1..][i] == s[i + 1] && s[1..][j] == s[j + 1];
    }
  }

  lemma NoDuplicatesCons(x: string, r: seq<string>)
    requires x !in r && NoDuplicates(r)
    ensures NoDuplicates([x] + r)
  {
    forall i, j | 0 <= i < j < |r| + 1 ensures ([x] + r)[i] != ([x] + r)[j] {
      assert ([x] + r)[j] == r[j - 1];
      if i > 0 {
        assert ([x] + r)[i] == r[i - 1];
      }
    }
  }

  /** The owned set after toggleOwnership on `id` (script.js:171-177). */
  function Toggled(order: seq<string>, id: string): seq<string> {
    if id in order then Without(order, id) else order + [id]
  }

  /**
   * Toggling makes `id` owned exactly when it was not, leaves every other id
   * as it was, and keeps the set free of duplicates.
   */
  lemma ToggleFlips(order: seq<string>, id: string, other: string)
    requires NoDuplicates(order)
    ensures id in IdSet(Toggled(order, id)) <==> id !in IdSet(order)
    ensures other != id ==> (other in IdSet(Toggled(order, id)) <==> other in IdSet(order))
    ensures NoDuplicates(Toggled(order, id))
  {
    if id !in order {
      assert IdSet(order + [id]) == IdSet(order) + {id};
      assert forall i :: 0 <= i < |order| ==> (order + [id])[i] == order[i];
    }
  }

  /** Toggling twice restores the set of owned ids. */
  lemma ToggleTwiceSameSet(order: seq<string>, id: string)
    ensures IdSet(Toggled(Toggled(order, id), id)) == IdSet(order)
  {
    if id in order {
      var w := Without(order, id);
      assert Toggled(order, id) == w && Toggled(w, id) == w + [id];
      forall x ensures x in IdSet(w + [id]) <==> x in IdSet(order) {
        assert x in w + [id] <==> x in w || x == id;
      }
    } else {
      WithoutLast(order, id);
      assert Toggled(Toggled(order, id), id) == order;
    }
  }

  /**
   * Toggling twice restores the exact order of an id that was not owned, and
   * moves an owned id to the end of the insertion order.
   */
  lemma ToggleTwiceOrder(order: seq<string>, id: string)
    ensures id !in order ==> Toggled(Toggled(order, id), id) == order
    ensures id in order ==> Toggled(Toggled(order, id), id) == Without(order, id) + [id]
  {
    if id in order {
      assert id !in IdSet(Without(order, id));
    } else {
      WithoutLast(order, id);
    }
  }

  /** When the toggled id is the last one inserted, two toggles give back the exact order. */
  lemma ToggleTwiceLastRestores(order: seq<string>, id: string)
    requires NoDuplicates(order) && order != [] && order[|order| - 1] == id
    ensures Toggled(Toggled(order, id), id) == order
  {
    var init := order[..|order| - 1];
    assert order == init + [id];
    assert id !in init by {
      forall i | 0 <= i < |init| ensures init[i] != id {
        assert init[i] == order[i];
      }
    }
    WithoutLast(init, id);
  }

  lemma {:induction false} WithoutLast(s: seq<string>, id: string)
    requires id !in s
    ensures Without(s + [id], id) == s
  {
    if s != [] {
      assert (s + [id])[1..] == s[1..] + [id];
      WithoutLast(s[1..], id);
    }
  }

  /** Two toggles of an owned id change the saved array, although not the set. */
  lemma ToggleTwiceReorders()
    ensures Toggled(Toggled(["a", "b"], "a"), "a") == ["b", "a"]
    ensures IdSet(["b", "a"]) == IdSet(["a", "b"])
  {
    assert "a" != "b";
    assert Without(["a", "b"], "a") == ["b"];
    assert "a" !in ["b"];
  }

  /** `new Set(array)`: the first occurrence of each id, in array order. */
  function Dedup(s: seq<string>): (r: seq<string>)
    ensures NoDuplicates(r)
    ensures IdSet(r) == IdSet(s)
    ensures forall x :: x in r <==> x in s
    ensures IsSubsequence(r, s)
  {
    if s == [] then []
    else
      var init, last := s[..|s| - 1], s[|s| - 1];
      var d := Dedup(init);
      assert s == init + [last];
      assert IdSet(s) == IdSet(init) + {last};
      SubsequenceSnoc(d, init, last);
      if last in d then d
      else
        assert IdSet(d + [last]) == IdSet(d) + {last};
        d + [last]
  }

  /** The position of the first occurrence of `x` in `s`. */
  function FirstIndex(s: seq<string>, x: string): (j: nat)
    requires x in s
    ensures j < |s| && s[j] == x && x !in s[..j]
  {
    if s[0] == x then 0
    else
      var j := FirstIndex(s[1..], x);
      assert s[1..][..j] == s[1..j + 1];
      assert s[..j + 1] == [s[0]] + s[1..j + 1];
      j + 1
  }

  /** In a prefix that already holds `x`, its first occurrence is the same. */
  lemma FirstIndexInPrefix(s: seq<string>, n: nat, x: string)
    requires n <= |s| && x in s[..n]
    ensures FirstIndex(s, x) == FirstIndex(s[..n], x)
  {
    var j1, j2 := FirstIndex(s, x), FirstIndex(s[..n], x);
    assert s[j2] == x;
    assert forall i :: 0 <= i < j1 ==> s[i] != x by {
      forall i | 0 <= i < j1 ensures s[i] != x {
        assert s[..j1][i] == s[i];
      }
    }
    assert forall i :: 0 <= i < j2 ==> s[i] != x by {
      forall i | 0 <= i < j2 ensures s[i] != x {
        assert s[..n][..j2][i] == s[i];
      }
    }
  }

  /**
   * `new Set(array)` lists the ids in the order of their first occurrences
   * in the array.
   */
  lemma {:induction false} DedupFirstOrder(s: seq<string>)
    ensures forall i, j :: 0 <= i < j < |Dedup(s)| ==> FirstIndex(s, Dedup(s)[i]) < FirstIndex(s, Dedup(s)[j])
  {
    if s != [] {
      var init := s[..|s| - 1];
      var last := s[|s| - 1];
      var d := Dedup(init);
      DedupFirstOrder(init);
      assert s == init + [last];
      forall x | x in d ensures FirstIndex(s, x) == FirstIndex(init, x) {
        assert x in IdSet(d);
        FirstIndexInPrefix(s, |s| - 1, x);
      }
      var r := Dedup(s);
      if last !in d {
        assert r == d + [last];
        assert last !in init by { assert last !in IdSet(d); }
        assert forall i :: 0 <= i < |s| - 1 ==> s[i] != last by {
          forall i | 0 <= i < |s| - 1 ensures s[i] != last {
            assert s[i] == init[i];
          }
        }
        assert FirstIndex(s, last) == |s| - 1;
        forall i, j | 0 <= i < j < |r| ensures FirstIndex(s, r[i]) < FirstIndex(s, r[j]) {
          assert r[i] == d[i] && r[i] in d;
          if j < |d| {
            assert r[j] == d[j] && r[j] in d;
          }
        }
      } else {
        assert r == d;
        forall i, j | 0 <= i < j < |r| ensures FirstIndex(s, r[i]) < FirstIndex(s, r[j]) {
          assert r[i] in d && r[j] in d;
        }
      }
    }
  }

  /** Reading back an array of distinct ids gives that array, in its order. */
  lemma {:induction false} DedupOfDistinct(s: seq<string>)
    requires NoDuplicates(s)
    ensures Dedup(s) == s
  {
    if s != [] {
      var init := s[..|s| - 1];
      assert NoDuplicates(init);
      DedupOfDistinct(init);
      assert s[|s| - 1] !in init by {
        forall i | 0 <= i < |init| ensures init[i] != s[|s| - 1] {
          assert init[i] == s[i];
        }
      }
      assert s == init + [s[|s| - 1]];
    }
  }

  /**
   * The 'ownedAvatars' storage entry. `IdList` is the JSON text of an array
   * of ids; `Blank` is the empty string, which is falsy; `Unparsable` is text
   * on which `JSON.parse` throws.
   */
  datatype Entry = Absent | Blank | IdList(ids: seq<string>) | Unparsable

  /** What loadOwnedAvatars does with an entry: the new set, the old one, or an exception. */
  datatype LoadResult = Loaded(order: seq<string>) | Kept | Thrown

  function Load(e: Entry): (r: LoadResult)
    ensures r.Loaded? <==> e.IdList?
    ensures r.Thrown? <==> e.Unparsable?
    ensures r.Loaded? ==> NoDuplicates(r.order) && IdSet(r.order) == IdSet(e.ids)
  {
    match e
    case Absent => Kept
    case Blank => Kept
    case IdList(ids) => Loaded(Dedup(ids))
    case Unparsable => Thrown
  }

  /** saveOwnedAvatars: the entry holds the ids in insertion order. */
  function Save(order: seq<string>): Entry {
    IdList(order)
  }

  /** Loading what was saved gives back the same set, in the same order. */
  lemma LoadAfterSave(order: seq<string>)
    requires NoDuplicates(order)
    ensures Load(Save(order)) == Loaded(order)
  {
    DedupOfDistinct(order);
  }
}
