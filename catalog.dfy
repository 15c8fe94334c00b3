/**
 * Catalog ordering: after the fetch, `allAvatars` is sorted in place with the
 * two-key comparator (script.js:26-30). Array.prototype.sort is stable, so the
 * order is fully determined: by class (rarity, then attribute), and within a
 * class by fetch order. The model sorts with a stable insertion sort whose
 * result is `SortAvatars`, and proves that any stable sort by the comparator
 * yields that same sequence.
 */
module Catalog {
  import opened Avatars
  import opened Seqs

  /** Non-decreasing under the comparator. */
  predicate Sorted(s: seq<Avatar>) {
    forall i, j :: 0 <= i < j < |s| ==> Compare(s[i], s[j]) <= 0
  }

  lemma SortedTail(s: seq<Avatar>)
    requires Sorted(s) && s != []
    ensures Sorted(s[1..])
  {
    forall i, j | 0 <= i < j < |s| - 1 ensures Compare(s[1..][i], s[1..][j]) <= 0 {
      assert s[1..][i] == s[i + 1] && s[1..][j] == s[j + 1];
    }
  }

  lemma HeadIsLeast(s: seq<Avatar>, y: Avatar)
    requires Sorted(s) && s != [] && y in s[1..]
    ensures Compare(s[0], y) <= 0
  {
    var k :| 0 <= k < |s[1..]| && s[1..][k] == y;
    assert s[k + 1] == y;
  }

  lemma SortedCons(x: Avatar, t: seq<Avatar>)
    requires Sorted(t) && forall y :: y in t ==> Compare(x, y) <= 0
    ensures Sorted([x] + t)
  {
    var r := [x] + t;
    forall i, j | 0 <= i < j < |r| ensures Compare(r[i], r[j]) <= 0 {
      assert r[j] == t[j - 1];
      if i > 0 {
        assert r[i] == t[i - 1];
      }
    }
  }

  /** Sorted means: rarity rank never decreases, and within one rarity attribute rank never decreases. */
  lemma SortedMeansRarityThenAttribute(s: seq<Avatar>)
    requires Sorted(s)
    ensures forall i, j :: 0 <= i < j < |s| ==> RarityRank(s[i].rarity) <= RarityRank(s[j].rarity)
    ensures forall i, j :: 0 <= i < j < |s| && s[i].rarity == s[j].rarity ==>
              AttributeRank(s[i].attribute) <= AttributeRank(s[j].attribute)
  {
    forall i, j | 0 <= i < j < |s|
      ensures RarityRank(s[i].rarity) <= RarityRank(s[j].rarity)
      ensures s[i].rarity == s[j].rarity ==> AttributeRank(s[i].attribute) <= AttributeRank(s[j].attribute)
    {
      assert Compare(s[i], s[j]) <= 0;
    }
  }

  /**
   * Inserts `x` behind every element that does not compare greater than it:
   * the step of a stable insertion sort.
   */
  function Insert(xs: seq<Avatar>, x: Avatar): (r: seq<Avatar>)
    ensures |r| == |xs| + 1
    decreases |xs|
  {
    if xs == [] || Compare(xs[|xs| - 1], x) <= 0 then xs + [x]
    else
      assert xs == xs[..|xs| - 1] + [xs[|xs| - 1]];
      Insert(xs[..|xs| - 1], x) + [xs[|xs| - 1]]
  }

  /** The catalog order: each element of the fetched list inserted, in fetch order; a permutation of the input. */
  function SortAvatars(s: seq<Avatar>): (r: seq<Avatar>)
    ensures |r| == |s|
  {
    if s == [] then []
    else
      assert s == s[..|s| - 1] + [s[|s| - 1]];
      Insert(SortAvatars(s[..|s| - 1]), s[|s| - 1])
  }

  lemma {:induction false} InsertPermutes(xs: seq<Avatar>, x: Avatar)
    ensures multiset(Insert(xs, x)) == multiset(xs) + multiset{x}
    decreases |xs|
  {
    if xs != [] && Compare(xs[|xs| - 1], x) > 0 {
      var init := xs[..|xs| - 1];
      assert xs == init + [xs[|xs| - 1]];
      InsertPermutes(init, x);
    }
  }

  /** The catalog is a permutation of the fetched list. */
  lemma {:induction false} SortAvatarsPermutes(s: seq<Avatar>)
    ensures multiset(SortAvatars(s)) == multiset(s)
  {
    if s != [] {
      var init := s[..|s| - 1];
      assert s == init + [s[|s| - 1]];
      SortAvatarsPermutes(init);
      InsertPermutes(SortAvatars(init), s[|s| - 1]);
    }
  }

  /** Every element of `s` compares at most equal to `b`. */
  predicate AtMost(s: seq<Avatar>, b: Avatar) {
    forall i :: 0 <= i < |s| ==> Compare(s[i], b) <= 0
  }

  lemma SortedSnoc(p: seq<Avatar>, b: Avatar)
    requires Sorted(p) && AtMost(p, b)
    ensures Sorted(p + [b])
  {
    var r := p + [b];
    forall i, j | 0 <= i < j < |r| ensures Compare(r[i], r[j]) <= 0 {
      assert r[i] == p[i];
    }
  }

  lemma SortedAtMostLast(xs: seq<Avatar>, b: Avatar)
    requires Sorted(xs) && xs != [] && Compare(xs[|xs| - 1], b) <= 0
    ensures AtMost(xs, b)
  {
    forall i | 0 <= i < |xs| ensures Compare(xs[i], b) <= 0 {
      CompareTotalPreorder(xs[i], xs[|xs| - 1], b);
    }
  }

  lemma InsertAtMost(xs: seq<Avatar>, x: Avatar, b: Avatar)
    requires AtMost(xs, b) && Compare(x, b) <= 0
    ensures AtMost(Insert(xs, x), b)
  {
    var r := Insert(xs, x);
    InsertPermutes(xs, x);
    forall i | 0 <= i < |r| ensures Compare(r[i], b) <= 0 {
      assert r[i] in multiset(r);
      if r[i] != x {
        assert r[i] in multiset(xs);
        var k :| 0 <= k < |xs| && xs[k] == r[i];
      }
    }
  }

  lemma {:induction false} InsertSorted(xs: seq<Avatar>, x: Avatar)
    requires Sorted(xs)
    ensures Sorted(Insert(xs, x))
  {
    if xs == [] {
      SortedSnoc(xs, x);
    } else if Compare(xs[|xs| - 1], x) <= 0 {
      SortedAtMostLast(xs, x);
      SortedSnoc(xs, x);
    } else {
      var init, last := xs[..|xs| - 1], xs[|xs| - 1];
      SortedInit(xs);
      InsertSorted(init, x);
      assert xs == init + [last];
      if init != [] {
        SortedAtMostLast(init, last);
      }
      CompareTotalPreorder(last, x, x);
      InsertAtMost(init, x, last);
      SortedSnoc(Insert(init, x), last);
    }
  }

  lemma SortedInit(xs: seq<Avatar>)
    requires Sorted(xs) && xs != []
    ensures Sorted(xs[..|xs| - 1])
    ensures |xs| > 1 ==> Compare(xs[|xs| - 2], xs[|xs| - 1]) <= 0
  {
  }

  /** The catalog order is sorted. */
  lemma {:induction false} SortAvatarsSorted(s: seq<Avatar>)
    ensures Sorted(SortAvatars(s))
  {
    if s != [] {
      SortAvatarsSorted(s[..|s| - 1]);
      InsertSorted(SortAvatars(s[..|s| - 1]), s[|s| - 1]);
    }
  }

  /** The avatars of one class (rarity and attribute), in their order. */
  function OfClass(s: seq<Avatar>, r: Rarity, a: Attribute): seq<Avatar> {
    Filter(s, (x: Avatar) => x.rarity == r && x.attribute == a)
  }

  lemma OfClassAppend(s: seq<Avatar>, t: seq<Avatar>, r: Rarity, a: Attribute)
    ensures OfClass(s + t, r, a) == OfClass(s, r, a) + OfClass(t, r, a)
  {
    FilterAppend(s, t, (x: Avatar) => x.rarity == r && x.attribute == a);
  }

  lemma OfClassSingleton(x: Avatar, r: Rarity, a: Attribute)
    ensures OfClass([x], r, a) == if x.rarity == r && x.attribute == a then [x] else []
  {
    assert [x][1..] == [];
  }

  /** Moving `x` in front of an element of another class leaves each class projection as it was. */
  lemma OvertakeOtherClass(p: seq<Avatar>, init: seq<Avatar>, x: Avatar, last: Avatar, r: Rarity, a: Attribute)
    requires OfClass(p, r, a) == OfClass(init, r, a) + OfClass([x], r, a)
    requires x.rarity != last.rarity || x.attribute != last.attribute
    ensures OfClass(p + [last], r, a) == OfClass(init + [last], r, a) + OfClass([x], r, a)
  {
    OfClassAppend(p, [last], r, a);
    OfClassAppend(init, [last], r, a);
    OfClassSingleton(x, r, a);
    OfClassSingleton(last, r, a);
  }

  /** Inserting `x` puts it behind every element of its own class. */
  lemma {:induction false} InsertStable(xs: seq<Avatar>, x: Avatar, r: Rarity, a: Attribute)
    ensures OfClass(Insert(xs, x), r, a) == OfClass(xs, r, a) + OfClass([x], r, a)
  {
    if xs == [] || Compare(xs[|xs| - 1], x) <= 0 {
      OfClassAppend(xs, [x], r, a);
    } else {
      var init, last := xs[..|xs| - 1], xs[|xs| - 1];
      assert xs == init + [last];
      assert Insert(xs, x) == Insert(init, x) + [last];
      InsertStable(init, x, r, a);
      // `last` compares greater than `x`, so they are not of the same class.
      OvertakeOtherClass(Insert(init, x), init, x, last, r, a);
    }
  }

  /** Stability: within each class, the catalog keeps the fetch order. */
  lemma {:induction false} SortAvatarsStable(s: seq<Avatar>, r: Rarity, a: Attribute)
    ensures OfClass(SortAvatars(s), r, a) == OfClass(s, r, a)
  {
    if s != [] {
      var init, last := s[..|s| - 1], s[|s| - 1];
      assert s == init + [last];
      SortAvatarsStable(init, r, a);
      InsertStable(SortAvatars(init), last, r, a);
      OfClassAppend(init, [last], r, a);
    }
  }

  /** The last element of a sorted sequence compares greater than or equal to every element. */
  lemma LastIsGreatest(t: seq<Avatar>, x: Avatar)
    requires Sorted(t) && x in t
    ensures Compare(x, t[|t| - 1]) <= 0
  {
    var k :| 0 <= k < |t| && t[k] == x;
    if k < |t| - 1 {
      assert Compare(t[k], t[|t| - 1]) <= 0;
    }
  }

  /** Dropping the last element drops it from its own class only. */
  lemma OfClassDropLast(t: seq<Avatar>, r: Rarity, a: Attribute)
    requires t != []
    ensures var c := OfClass(t, r, a);
            var x := t[|t| - 1];
            if x.rarity == r && x.attribute == a then c != [] && c[|c| - 1] == x && OfClass(t[..|t| - 1], r, a) == c[..|c| - 1]
            else OfClass(t[..|t| - 1], r, a) == c
  {
    assert t == t[..|t| - 1] + [t[|t| - 1]];
    OfClassAppend(t[..|t| - 1], [t[|t| - 1]], r, a);
  }

  /**
   * Two non-empty sorted sequences with the same class projections end in the
   * same element, and their prefixes without it have the same projections again.
   */
  lemma SameLast(t1: seq<Avatar>, t2: seq<Avatar>, i1: seq<Avatar>, i2: seq<Avatar>)
    requires t1 != [] && t2 != [] && i1 == t1[..|t1| - 1] && i2 == t2[..|t2| - 1]
    requires Sorted(t1) && Sorted(t2)
    requires forall r: Rarity, a: Attribute :: OfClass(t1, r, a) == OfClass(t2, r, a)
    ensures t1[|t1| - 1] == t2[|t2| - 1]
    ensures forall r: Rarity, a: Attribute :: OfClass(i1, r, a) == OfClass(i2, r, a)
  {
    var x1, x2 := t1[|t1| - 1], t2[|t2| - 1];
    assert x2 in t1 by {
      assert x2 in OfClass(t2, x2.rarity, x2.attribute);
    }
    assert x1 in t2 by {
      assert x1 in OfClass(t1, x1.rarity, x1.attribute);
    }
    LastIsGreatest(t1, x2);
    LastIsGreatest(t2, x1);
    CompareTotalPreorder(x1, x2, x2);
    OfClassDropLast(t1, x1.rarity, x1.attribute);
    OfClassDropLast(t2, x1.rarity, x1.attribute);
    forall r: Rarity, a: Attribute ensures OfClass(i1, r, a) == OfClass(i2, r, a) {
      OfClassDropLast(t1, r, a);
      OfClassDropLast(t2, r, a);
    }
  }

  /** A sequence is empty exactly when each of its class projections is. */
  lemma EmptyIffNoClass(t: seq<Avatar>)
    ensures t == [] <==> forall r: Rarity, a: Attribute :: OfClass(t, r, a) == []
  {
    if t != [] {
      assert t[0] in OfClass(t, t[0].rarity, t[0].attribute);
    }
  }

  /** Two sorted sequences with the same members, class by class in the same order, are equal. */
  lemma {:induction false} SortedByClassUnique(t1: seq<Avatar>, t2: seq<Avatar>)
    requires Sorted(t1) && Sorted(t2)
    requires forall r: Rarity, a: Attribute :: OfClass(t1, r, a) == OfClass(t2, r, a)
    ensures t1 == t2
    decreases |t1| + |t2|
  {
    if t1 != [] && t2 != [] {
      var i1, i2 := t1[..|t1| - 1], t2[..|t2| - 1];
      assert t1 == i1 + [t1[|t1| - 1]];
      assert t2 == i2 + [t2[|t2| - 1]];
      SameLast(t1, t2, i1, i2);
      SortedByClassUnique(i1, i2);
    } else {
      EmptyIffNoClass(t1);
      EmptyIffNoClass(t2);
    }
  }

  /**
   * Whatever stable sort the engine uses, the result is the catalog order: a
   * sorted sequence that keeps each class in fetch order is `SortAvatars(s)`.
   */
  lemma StableSortIsSortAvatars(s: seq<Avatar>, t: seq<Avatar>)
    requires Sorted(t)
    requires forall r: Rarity, a: Attribute :: OfClass(t, r, a) == OfClass(s, r, a)
    ensures t == SortAvatars(s)
  {
    SortAvatarsSorted(s);
    forall r: Rarity, a: Attribute ensures OfClass(t, r, a) == OfClass(SortAvatars(s), r, a) {
      SortAvatarsStable(s, r, a);
    }
    SortedByClassUnique(t, SortAvatars(s));
  }

  /**
   * Where `x` lands: behind the last element not greater than it, when every
   * element from `j` on compares greater.
   */
  lemma {:induction false} InsertAt(p: seq<Avatar>, j: nat, x: Avatar)
    requires j <= |p|
    requires forall k :: j <= k < |p| ==> Compare(p[k], x) > 0
    requires j == 0 || Compare(p[j - 1], x) <= 0
    ensures Insert(p, x) == p[..j] + [x] + p[j..]
    decreases |p|
  {
    if j < |p| {
      var init, last := p[..|p| - 1], p[|p| - 1];
      assert Compare(last, x) > 0;
      assert Insert(p, x) == Insert(init, x) + [last];
      assert forall k :: j <= k < |init| ==> Compare(init[k], x) > 0 by {
        forall k | j <= k < |init| ensures Compare(init[k], x) > 0 {
          assert init[k] == p[k];
        }
      }
      assert j > 0 ==> init[j - 1] == p[j - 1];
      InsertAt(init, j, x);
      calc {
        Insert(p, x);
        Insert(init, x) + [last];
        init[..j] + [x] + init[j..] + [last];
        { assert init[..j] == p[..j]; assert init[j..] + [last] == p[j..]; }
        p[..j] + [x] + p[j..];
      }
    } else {
      assert p[..j] == p && p[j..] == [];
    }
  }

  /**
   * The array during the inner loop: the untouched part of the prefix, a free
   * slot at `j`, the shifted part of the prefix, and the rest of the array.
   */
  ghost predicate Shifted(b: seq<Avatar>, p: seq<Avatar>, rest: seq<Avatar>, j: nat, x: Avatar)
  {
    && j <= |p| && j < |b| && b == p[..j] + [b[j]] + p[j..] + rest
    && forall k :: j <= k < |p| ==> Compare(p[k], x) > 0
  }

  /** Copying `b[j - 1]` into the free slot moves the slot one place down. */
  lemma ShiftStep(b: seq<Avatar>, p: seq<Avatar>, rest: seq<Avatar>, j: nat, x: Avatar)
    requires 0 < j && Shifted(b, p, rest, j, x) && Compare(b[j - 1], x) > 0
    ensures Shifted(b[j := b[j - 1]], p, rest, j - 1, x)
  {
    var b' := b[j := b[j - 1]];
    assert b[j - 1] == p[j - 1];
    var q := p[..j - 1] + [b'[j - 1]] + p[j - 1..] + rest;
    assert |b'| == |q|;
    forall k | 0 <= k < |b'| ensures b'[k] == q[k] {
      if k < j - 1 {
        assert b[k] == p[k];
      } else if k == j {
        assert b[j - 1] == p[j - 1];
      }
    }
  }

  /** Filling the free slot with `x` where the inner loop stops completes the insertion. */
  lemma ShiftedDone(b: seq<Avatar>, p: seq<Avatar>, rest: seq<Avatar>, j: nat, x: Avatar)
    requires Shifted(b, p, rest, j, x)
    requires j == 0 || Compare(p[j - 1], x) <= 0
    ensures b[j := x] == Insert(p, x) + rest
  {
    InsertAt(p, j, x);
    var q := p[..j] + [x] + p[j..];
    assert b[j := x] == q + rest;
  }

  /** The catalog order of a longer prefix inserts the next element. */
  lemma SortPrefix(s: seq<Avatar>, i: nat)
    requires i < |s|
    ensures SortAvatars(s[..i + 1]) == Insert(SortAvatars(s[..i]), s[i])
  {
    assert s[..i + 1][..i] == s[..i];
  }

  /**
   * One pass of the sort: `a[i]` is moved down behind the elements of the sorted
   * prefix `a[..i]` that do not compare greater than it.
   */
  method InsertInPlace(a: array<Avatar>, i: nat)
    requires i < a.Length
    modifies a
    ensures a[..] == Insert(old(a[..i]), old(a[i])) + old(a[i + 1..])
  {
    var x := a[i];
    ghost var p, rest := a[..i], a[i + 1..];
    var j := i;
    assert a[..] == p + [x] + rest;
    while j > 0 && Compare(a[j - 1], x) > 0
      invariant Shifted(a[..], p, rest, j, x)
    {
      ShiftStep(a[..], p, rest, j, x);
      a[j] := a[j - 1];
      j := j - 1;
    }
    ghost var before := a[..];
    a[j] := x;
    assert a[..] == before[j := x];
    ShiftedDone(before, p, rest, j, x);
  }

  /** `allAvatars.sort(comparator)`, in place, as a stable insertion sort. */
  method SortInPlace(a: array<Avatar>)
    modifies a
    ensures a[..] == SortAvatars(old(a[..]))
  {
    ghost var s := a[..];
    var i := 0;
    while i < a.Length
      invariant 0 <= i <= a.Length
      invariant a[..] == SortAvatars(s[..i]) + s[i..]
    {
      ghost var before := a[..];
      assert before[..i] == SortAvatars(s[..i]) && before[i] == s[i] && before[i + 1..] == s[i + 1..];
      InsertInPlace(a, i);
      SortPrefix(s, i);
      i := i + 1;
    }
    assert s[..a.Length] == s;
  }
}
