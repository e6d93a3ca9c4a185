/** Painter's-algorithm ordering of the frame entity list: a stable
    ascending sort on world Y.

    Java's `Collections.sort` is documented to be a stable merge sort; it is
    modelled by `StableSortByY`. A stable sort's result is determined by its
    input alone (`SortedStableUnique`), which is shown here by proving that
    an independent insertion sort produces the very same sequence.
 */
module DepthSort {
  import opened Entities

  /** World Y never decreases from one entity to the next. */
  predicate SortedByY(s: seq<Entity>) {
    |s| <= 1 || (s[0].worldY <= s[1].worldY && SortedByY(s[1..]))
  }

  /** The entities of `s` whose world Y is `y`, in their order within `s`. */
  function WithY(s: seq<Entity>, y: int): seq<Entity>
  {
    if s == [] then []
    else (if s[0].worldY == y then [s[0]] else []) + WithY(s[1..], y)
  }

  /** `t` keeps the relative order of every group of equal-Y entities of `s`:
      the stability promise of the sort. */
  ghost predicate KeepsTieOrder(s: seq<Entity>, t: seq<Entity>) {
    forall y :: WithY(t, y) == WithY(s, y)
  }

  // ----- Facts about sortedness and equal-Y groups -----

  /** In a sorted sequence no entity has a smaller world Y than the first. */
  lemma {:induction false} SortedHeadIsLeast(s: seq<Entity>, i: nat)
    requires SortedByY(s) && i < |s|
    ensures s[0].worldY <= s[i].worldY
    decreases i
  {
    if i > 0 {
      SortedHeadIsLeast(s[1..], i - 1);
    }
  }

  /** The adjacent-pairs definition of sortedness agrees with the all-pairs
      one: an entity earlier in the list never has a larger world Y. */
  lemma {:induction false} SortedIffAllPairsOrdered(s: seq<Entity>)
    ensures SortedByY(s) <==> forall i, j :: 0 <= i < j < |s| ==> s[i].worldY <= s[j].worldY
    decreases |s|
  {
    if |s| > 1 {
      SortedIffAllPairsOrdered(s[1..]);
      if SortedByY(s) {
        forall i, j | 0 <= i < j < |s|
          ensures s[i].worldY <= s[j].worldY
        {
          if i == 0 {
            SortedHeadIsLeast(s, j);
          } else {
            assert s[i] == s[1..][i - 1] && s[j] == s[1..][j - 1];
          }
        }
      }
      if forall i, j :: 0 <= i < j < |s| ==> s[i].worldY <= s[j].worldY {
        forall i, j | 0 <= i < j < |s[1..]|
          ensures s[1..][i].worldY <= s[1..][j].worldY
        {
          assert s[1..][i] == s[i + 1] && s[1..][j] == s[j + 1];
        }
      }
    }
  }

  /** Putting `e` in front of a sorted sequence whose first key is not
      below `e`'s keeps it sorted. */
  lemma ConsSorted(e: Entity, s: seq<Entity>)
    requires SortedByY(s)
    requires s == [] || e.worldY <= s[0].worldY
    ensures SortedByY([e] + s)
  {
    assert ([e] + s)[1..] == s;
  }

  lemma WithYCons(e: Entity, s: seq<Entity>, y: int)
    ensures WithY([e] + s, y) == (if e.worldY == y then [e] else []) + WithY(s, y)
  {
    assert ([e] + s)[0] == e;
    assert ([e] + s)[1..] == s;
  }

  lemma {:induction false} WithYAppend(a: seq<Entity>, b: seq<Entity>, y: int)
    ensures WithY(a + b, y) == WithY(a, y) + WithY(b, y)
    decreases |a|
  {
    if a == [] {
      assert a + b == b;
    } else {
      assert (a + b)[0] == a[0];
      assert (a + b)[1..] == a[1..] + b;
      WithYAppend(a[1..], b, y);
    }
  }

  /** The equal-Y group at `y` holds exactly the entities of `s` at `y`. */
  lemma {:induction false} WithYMembers(s: seq<Entity>, y: int)
    ensures forall e :: e in WithY(s, y) <==> e in s && e.worldY == y
    decreases |s|
  {
    if s != [] {
      WithYMembers(s[1..], y);
      assert s == [s[0]] + s[1..];
    }
  }

  /** A sorted sequence whose first key exceeds `y` has no entity at `y`. */
  lemma {:induction false} WithYBelowHead(s: seq<Entity>, y: int)
    requires SortedByY(s)
    requires s != [] && y < s[0].worldY
    ensures WithY(s, y) == []
    decreases |s|
  {
    if |s| > 1 {
      WithYBelowHead(s[1..], y);
    }
  }

  // ----- The model of Collections.sort: a stable merge sort -----

  /** Merges two sorted runs; on equal keys the left run goes first. */
  function Merge(a: seq<Entity>, b: seq<Entity>): (r: seq<Entity>)
    requires SortedByY(a) && SortedByY(b)
    ensures SortedByY(r)
    ensures |r| == |a| + |b|
    ensures a != [] && b != [] ==> r[0] == a[0] || r[0] == b[0]
    decreases |a| + |b|
  {
    if a == [] then b
    else if b == [] then a
    else if a[0].worldY <= b[0].worldY then
      var rest := Merge(a[1..], b);
      ConsSorted(a[0], rest);
      [a[0]] + rest
    else
      var rest := Merge(a, b[1..]);
      ConsSorted(b[0], rest);
      [b[0]] + rest
  }

  /** Merging loses and invents no entity. */
  lemma {:induction false} MergePermutes(a: seq<Entity>, b: seq<Entity>)
    requires SortedByY(a) && SortedByY(b)
    ensures multiset(Merge(a, b)) == multiset(a) + multiset(b)
    decreases |a| + |b|
  {
    if a == [] {
    } else if b == [] {
    } else if a[0].worldY <= b[0].worldY {
      var rest := Merge(a[1..], b);
      MergePermutes(a[1..], b);
      assert Merge(a, b) == [a[0]] + rest;
      assert multiset(a) == multiset{a[0]} + multiset(a[1..]) by {
        assert a == [a[0]] + a[1..];
      }
    } else {
      var rest := Merge(a, b[1..]);
      MergePermutes(a, b[1..]);
      assert Merge(a, b) == [b[0]] + rest;
      assert multiset(b) == multiset{b[0]} + multiset(b[1..]) by {
        assert b == [b[0]] + b[1..];
      }
    }
  }

  /** A stable merge sort on world Y. */
  function StableSortByY(s: seq<Entity>): (r: seq<Entity>)
    ensures SortedByY(r)
    ensures |r| == |s|
    decreases |s|
  {
    if |s| <= 1 then s
    else
      var m := |s| / 2;
      Merge(StableSortByY(s[..m]), StableSortByY(s[m..]))
  }

  /** The merge sort loses and invents no entity: its result is a
      permutation of its input. */
  lemma {:induction false} StableSortPermutes(s: seq<Entity>)
    ensures multiset(StableSortByY(s)) == multiset(s)
    decreases |s|
  {
    if |s| > 1 {
      var m := |s| / 2;
      var left, right := StableSortByY(s[..m]), StableSortByY(s[m..]);
      StableSortPermutes(s[..m]);
      StableSortPermutes(s[m..]);
      MergePermutes(left, right);
      SplitPermutes(s, m);
      assert StableSortByY(s) == Merge(left, right);
    }
  }

  lemma SplitPermutes(s: seq<Entity>, m: nat)
    requires m <= |s|
    ensures multiset(s) == multiset(s[..m]) + multiset(s[m..])
  {
    assert s == s[..m] + s[m..];
  }

  /** Merging keeps each run's equal-key group in place, left run first. */
  lemma {:induction false} MergeKeepsTieOrder(a: seq<Entity>, b: seq<Entity>, y: int)
    requires SortedByY(a) && SortedByY(b)
    ensures WithY(Merge(a, b), y) == WithY(a, y) + WithY(b, y)
    decreases |a| + |b|
  {
    if a == [] {
    } else if b == [] {
    } else if a[0].worldY <= b[0].worldY {
      MergeKeepsTieOrder(a[1..], b, y);
      assert Merge(a, b) == [a[0]] + Merge(a[1..], b);
      assert a == [a[0]] + a[1..];
      LeftHeadStep(a[0], Merge(a[1..], b), a[1..], b, y);
    } else {
      MergeKeepsTieOrder(a, b[1..], y);
      assert Merge(a, b) == [b[0]] + Merge(a, b[1..]);
      assert b == [b[0]] + b[1..];
      if b[0].worldY == y {
        WithYBelowHead(a, y);
      }
      RightHeadStep(b[0], Merge(a, b[1..]), a, b[1..], y);
    }
  }

  /** A merge step taking the left run's head `e` keeps the equal-Y groups
      of left run then right run. */
  lemma LeftHeadStep(e: Entity, rest: seq<Entity>, s: seq<Entity>, t: seq<Entity>, y: int)
    requires WithY(rest, y) == WithY(s, y) + WithY(t, y)
    ensures WithY([e] + rest, y) == WithY([e] + s, y) + WithY(t, y)
  {
    WithYCons(e, rest, y);
    WithYCons(e, s, y);
  }

  /** A merge step taking the right run's head `e`, whose key no entity of
      the left run shares, keeps the equal-Y groups of left run then right
      run. */
  lemma RightHeadStep(e: Entity, rest: seq<Entity>, s: seq<Entity>, t: seq<Entity>, y: int)
    requires WithY(rest, y) == WithY(s, y) + WithY(t, y)
    requires e.worldY == y ==> WithY(s, y) == []
    ensures WithY([e] + rest, y) == WithY(s, y) + WithY([e] + t, y)
  {
    WithYCons(e, rest, y);
    WithYCons(e, t, y);
  }

  /** The merge sort is stable: every group of equal-Y entities keeps its
      input order. */
  lemma {:induction false} StableSortKeepsTieOrder(s: seq<Entity>)
    ensures KeepsTieOrder(s, StableSortByY(s))
    decreases |s|
  {
    if |s| > 1 {
      var m := |s| / 2;
      StableSortKeepsTieOrder(s[..m]);
      StableSortKeepsTieOrder(s[m..]);
      forall y
        ensures WithY(StableSortByY(s), y) == WithY(s, y)
      {
        MergeKeepsTieOrder(StableSortByY(s[..m]), StableSortByY(s[m..]), y);
        assert s == s[..m] + s[m..];
        WithYAppend(s[..m], s[m..], y);
      }
    }
  }

  // ----- An independent reference: stable insertion sort -----

  /** Inserts `e` in front of the first entity whose key is not below its
      own, so `e` precedes the entities of equal key. */
  function Insert(e: Entity, s: seq<Entity>): (r: seq<Entity>)
    ensures |r| == |s| + 1
    ensures SortedByY(s) ==> SortedByY(r)
    ensures r[0] == e || (s != [] && r[0] == s[0])
    decreases |s|
  {
    if s == [] || e.worldY <= s[0].worldY then
      assert SortedByY(s) ==> SortedByY([e] + s) by {
        if SortedByY(s) {
          ConsSorted(e, s);
        }
      }
      [e] + s
    else
      var rest := Insert(e, s[1..]);
      assert s == [s[0]] + s[1..];
      assert SortedByY(s) ==> SortedByY([s[0]] + rest) by {
        if SortedByY(s) {
          ConsSorted(s[0], rest);
        }
      }
      [s[0]] + rest
  }

  /** Inserting `e` adds it in front of its own equal-Y group and leaves
      every other group alone. */
  lemma {:induction false} InsertKeepsTieOrder(e: Entity, s: seq<Entity>, y: int)
    ensures WithY(Insert(e, s), y) == (if e.worldY == y then [e] else []) + WithY(s, y)
    decreases |s|
  {
    if s == [] || e.worldY <= s[0].worldY {
      WithYCons(e, s, y);
    } else {
      InsertKeepsTieOrder(e, s[1..], y);
      InsertPastHead(e, s, y);
    }
  }

  /** The step of `InsertKeepsTieOrder` where `e` goes past the head. */
  lemma InsertPastHead(e: Entity, s: seq<Entity>, y: int)
    requires s != [] && s[0].worldY < e.worldY
    requires WithY(Insert(e, s[1..]), y) == (if e.worldY == y then [e] else []) + WithY(s[1..], y)
    ensures WithY(Insert(e, s), y) == (if e.worldY == y then [e] else []) + WithY(s, y)
  {
    var rest := Insert(e, s[1..]);
    assert Insert(e, s) == [s[0]] + rest;
    WithYCons(s[0], rest, y);
    WithYCons(s[0], s[1..], y);
    assert s == [s[0]] + s[1..];
  }

  /** Insertion sort, inserting the input's entities from last to first. */
  function InsertionSortByY(s: seq<Entity>): (r: seq<Entity>)
    ensures SortedByY(r)
    decreases |s|
  {
    if s == [] then []
    else Insert(s[0], InsertionSortByY(s[1..]))
  }

  /** The insertion sort is stable. */
  lemma {:induction false} InsertionSortKeepsTieOrder(s: seq<Entity>)
    ensures KeepsTieOrder(s, InsertionSortByY(s))
    decreases |s|
  {
    if s != [] {
      InsertionSortKeepsTieOrder(s[1..]);
      forall y
        ensures WithY(InsertionSortByY(s), y) == WithY(s, y)
      {
        InsertKeepsTieOrder(s[0], InsertionSortByY(s[1..]), y);
        WithYCons(s[0], s[1..], y);
        assert s == [s[0]] + s[1..];
      }
    }
  }

  // ----- Uniqueness of a stable sort -----

  /** Two sorted sequences with the same equal-Y groups are the same
      sequence: sortedness and stability together fix the result. */
  lemma {:induction false} SortedStableUnique(a: seq<Entity>, b: seq<Entity>)
    requires SortedByY(a) && SortedByY(b)
    requires forall y :: WithY(a, y) == WithY(b, y)
    ensures a == b
    decreases |a| + |b|
  {
    HeadGroupNonEmpty(a);
    HeadGroupNonEmpty(b);
    if a != [] && b != [] {
      HeadsAgree(a, b);
      forall y
        ensures WithY(a[1..], y) == WithY(b[1..], y)
      {
        TailGroupsAgree(a, b, y);
      }
      SortedStableUnique(a[1..], b[1..]);
      assert a == [a[0]] + a[1..];
      assert b == [b[0]] + b[1..];
    }
  }

  /** Two sorted sequences with the same equal-Y groups start with the same
      entity: the first entity of the lowest group. */
  lemma HeadsAgree(a: seq<Entity>, b: seq<Entity>)
    requires SortedByY(a) && SortedByY(b)
    requires a != [] && b != []
    requires forall y :: WithY(a, y) == WithY(b, y)
    ensures a[0] == b[0]
  {
    var k := a[0].worldY;
    assert k == b[0].worldY by {
      WithYMembers(a, b[0].worldY);
      WithYMembers(b, k);
      assert a[0] in WithY(a, k);
      assert b[0] in WithY(b, b[0].worldY);
      var i :| 0 <= i < |b| && b[i] == a[0];
      var j :| 0 <= j < |a| && a[j] == b[0];
      SortedHeadIsLeast(b, i);
      SortedHeadIsLeast(a, j);
    }
    assert WithY(a, k) == [a[0]] + WithY(a[1..], k);
    assert WithY(b, k) == [b[0]] + WithY(b[1..], k);
    assert a[0] == WithY(a, k)[0] == WithY(b, k)[0] == b[0];
  }

  /** The group of the first entity's world Y contains that entity. */
  lemma HeadGroupNonEmpty(s: seq<Entity>)
    ensures s != [] ==> WithY(s, s[0].worldY) != []
  {
  }

  /** Equal heads and equal groups at `y` leave equal groups at `y` in the
      tails. */
  lemma TailGroupsAgree(a: seq<Entity>, b: seq<Entity>, y: int)
    requires a != [] && b != [] && a[0] == b[0]
    requires WithY(a, y) == WithY(b, y)
    ensures WithY(a[1..], y) == WithY(b[1..], y)
  {
    if a[0].worldY == y {
      assert WithY(a, y) == [a[0]] + WithY(a[1..], y);
      assert WithY(b, y) == [a[0]] + WithY(b[1..], y);
      assert WithY(a[1..], y) == WithY(a, y)[1..];
      assert WithY(b[1..], y) == WithY(b, y)[1..];
    } else {
      assert WithY(a, y) == [] + WithY(a[1..], y) == WithY(a[1..], y);
      assert WithY(b, y) == [] + WithY(b[1..], y) == WithY(b[1..], y);
    }
  }

  /** Any two stable sorts agree: the merge sort and the insertion sort
      produce the same order for every input. */
  lemma {:induction false} StableSortsAgree(s: seq<Entity>)
    ensures StableSortByY(s) == InsertionSortByY(s)
  {
    StableSortKeepsTieOrder(s);
    InsertionSortKeepsTieOrder(s);
    SortedStableUnique(StableSortByY(s), InsertionSortByY(s));
  }

  /** Three entities at Y = 50, 50, 10 in that order are drawn as the one at
      10, then the first at 50, then the second at 50. */
  lemma {:induction false} TiesKeepGatherOrder(first: Entity, second: Entity, low: Entity)
    requires first.worldY == 50 && second.worldY == 50 && low.worldY == 10
    ensures StableSortByY([first, second, low]) == [low, first, second]
  {
    StableSortsAgree([first, second, low]);
    InsertionSortOfTies(first, second, low);
  }

  /** The insertion sort's order for the 50, 50, 10 scenario. */
  lemma InsertionSortOfTies(first: Entity, second: Entity, low: Entity)
    requires first.worldY == 50 && second.worldY == 50 && low.worldY == 10
    ensures InsertionSortByY([first, second, low]) == [low, first, second]
  {
    var s := [first, second, low];
    assert InsertionSortByY([low]) == [low] by {
      assert [low][1..] == [];
    }
    assert InsertionSortByY([second, low]) == [low, second] by {
      assert [second, low][1..] == [low];
      assert Insert(second, []) == [second];
      assert Insert(second, [low]) == [low] + [second];
    }
    assert s[1..] == [second, low];
    assert [low, second][1..] == [second];
    assert Insert(first, [second]) == [first] + [second] == [first, second];
    assert Insert(first, [low, second]) == [low] + Insert(first, [second]);
  }
}
