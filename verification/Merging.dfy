/** Merging the components of several tau-closures. */
module Merging {
  import opened Components
  import opened Lists
  import opened Reachability
  import opened TauClosures

  /** Compares two lists of the same length element by element. */
  method CheckEquality(list1: seq<nat>, list2: seq<nat>) returns (equal: bool)
    requires |list1| == |list2|
    ensures equal <==> list1 == list2
  {
    for i := 0 to |list1|
      invariant list1[..i] == list2[..i]
    {
      if list1[i] != list2[i] {
        return false;
      }
    }
    assert list1[..|list1|] == list1 && list2[..|list2|] == list2;
    return true;
  }

  /** The lists of temp that do not occur in result, in order. */
  function NotIn(temp: seq<seq<nat>>, result: seq<seq<nat>>): seq<seq<nat>> {
    if temp == [] then []
    else
      var last := temp[|temp| - 1];
      NotIn(temp[..|temp| - 1], result) + if last in result then [] else [last]
  }

  /** Appends to result the lists of temp that it does not contain. */
  method MergeSCCsWithoutDuplicates(result: seq<seq<nat>>, temp: seq<seq<nat>>) returns (merged: seq<seq<nat>>)
    ensures merged == result + NotIn(temp, result)
  {
    var temporary: seq<seq<nat>> := [];
    for i := 0 to |temp|
      invariant temporary == NotIn(temp[..i], result)
    {
      var foundEqual := false;
      var j := 0;
      while j < |result| && !foundEqual
        invariant 0 <= j <= |result|
        invariant foundEqual <==> temp[i] in result[..j]
      {
        if |temp[i]| == |result[j]| {
          foundEqual := CheckEquality(temp[i], result[j]);
        }
        j := j + 1;
      }
      assert foundEqual <==> temp[i] in result by {
        assert result == result[..j] + result[j..];
      }
      if !foundEqual {
        temporary := temporary + [temp[i]];
      }
      assert temp[..i + 1][..i] == temp[..i];
    }
    assert temp[..|temp|] == temp;
    return result + temporary;
  }

  /** Two components of the same graph are equal or disjoint. */
  lemma ComponentsEqualOrDisjoint<T(!new)>(E: set<(T, T)>, C: set<T>, D: set<T>, x: T)
    requires IsComponent(E, C) && IsComponent(E, D) && x in C && x in D
    ensures C == D
  {
    hide Reach;
    forall y ensures y in C <==> y in D {
      if y in C { assert Reach(E, x, y) && Reach(E, y, x); }
      if y in D { assert Reach(E, x, y) && Reach(E, y, x); }
    }
  }

  lemma SameComponentSameList(E: set<(nat, nat)>, a: seq<nat>, b: seq<nat>, x: nat)
    requires IsComponent(E, SetOf(a)) && IsComponent(E, SetOf(b)) && Ascending(a) && Ascending(b)
    requires x in a && x in b
    ensures a == b
  {
    ComponentsEqualOrDisjoint(E, SetOf(a), SetOf(b), x);
    AscendingUnique(a, b);
  }

  lemma {:induction false} NotInMembers(temp: seq<seq<nat>>, result: seq<seq<nat>>, l: seq<nat>)
    ensures l in NotIn(temp, result) <==> l in temp && l !in result
  {
    if temp != [] {
      var front, last := temp[..|temp| - 1], temp[|temp| - 1];
      NotInMembers(front, result, l);
      assert temp == front + [last];
    }
  }

  /** One list is appended to a decomposition. */
  lemma AppendComponent(E: set<(nat, nat)>, V: set<nat>, lists: seq<seq<nat>>, l: seq<nat>)
    requires Decomposition(E, V, lists)
    requires Ascending(l) && IsComponent(E, SetOf(l)) && l !in lists
    requires forall x, y :: x in l && (x, y) in E ==> y in l || y in V
    ensures Decomposition(E, V + SetOf(l), lists + [l])
  {
    hide Reach, Ordered, InComps;
    var sets := SetsOf(lists);
    assert SetsOf(lists + [l]) == sets + [SetOf(l)];
    forall i | 0 <= i < |lists| ensures sets[i] !! SetOf(l) {
      forall x | x in sets[i] ensures x !in SetOf(l) {
        if x in l {
          SameComponentSameList(E, lists[i], l, x);
        }
      }
    }
    AppendOrdered(E, V, sets, SetOf(l));
    forall x ensures x in V + SetOf(l) <==> InComps(sets + [SetOf(l)], |sets| + 1, x) {
      if x in V { InCompsMono(sets, [SetOf(l)], |sets|, |sets| + 1, x); }
      if x in SetOf(l) { InCompsAt(sets + [SetOf(l)], |sets|, |sets| + 1, x); }
      if InComps(sets + [SetOf(l)], |sets| + 1, x) { InCompsLast(sets, SetOf(l), x); }
    }
  }

  lemma AppendOrdered<T(!new)>(E: set<(T, T)>, V: set<T>, sets: seq<set<T>>, C: set<T>)
    requires Ordered(E, sets)
    requires forall x :: x in V <==> InComps(sets, |sets|, x)
    requires forall x, y :: x in C && (x, y) in E ==> y in C || y in V
    ensures Ordered(E, sets + [C])
  {
    hide InComps;
    var cs := sets + [C];
    forall i, x, y | 0 <= i < |cs| && x in cs[i] && (x, y) in E ensures InComps(cs, i + 1, y) {
      if i < |sets| {
        assert x in sets[i];
        InCompsMono(sets, [C], i + 1, i + 1, y);
      } else if y in C {
        InCompsAt(cs, i, i + 1, y);
      } else {
        InCompsMono(sets, [C], |sets|, i + 1, y);
      }
    }
  }

  ghost function UnionOf(sets: seq<set<nat>>, k: nat): set<nat>
    requires k <= |sets|
  {
    set i, x | 0 <= i < k && x in sets[i] :: x
  }

  lemma DistinctLists(E: set<(nat, nat)>, V: set<nat>, lists: seq<seq<nat>>, k: nat)
    requires Decomposition(E, V, lists) && k < |lists|
    ensures lists[k] !in lists[..k]
  {
    hide Reach, Ordered, InComps;
    var sets := SetsOf(lists);
    assert sets[k] != {};
    var x :| x in sets[k];
    forall i | 0 <= i < k ensures lists[i] != lists[k] {
      assert sets[i] !! sets[k];
      assert x !in SetOf(lists[i]);
    }
  }

  lemma NextListEdges(E: set<(nat, nat)>, V: set<nat>, temp: seq<seq<nat>>, k: nat)
    requires Decomposition(E, V, temp) && k < |temp|
    ensures forall x, y :: x in temp[k] && (x, y) in E ==> y in temp[k] || y in UnionOf(SetsOf(temp), k)
    ensures UnionOf(SetsOf(temp), k + 1) == UnionOf(SetsOf(temp), k) + SetOf(temp[k])
    ensures Ascending(temp[k]) && IsComponent(E, SetOf(temp[k]))
  {
    hide Reach;
    var sets := SetsOf(temp);
    forall x, y | x in temp[k] && (x, y) in E ensures y in temp[k] || y in UnionOf(sets, k) {
      assert x in sets[k];
      assert InComps(sets, k + 1, y);
    }
  }

  lemma ListInside(E: set<(nat, nat)>, V: set<nat>, lists: seq<seq<nat>>, l: seq<nat>)
    requires Decomposition(E, V, lists) && l in lists
    ensures SetOf(l) <= V
  {
    hide Reach, IsComponent, Ordered, Disjoint;
    var sets := SetsOf(lists);
    var i :| 0 <= i < |lists| && lists[i] == l;
    forall x | x in SetOf(l) ensures x in V {
      InCompsAt(sets, i, |sets|, x);
    }
  }

  lemma {:induction false} MergePrefix(E: set<(nat, nat)>, V: set<nat>, result: seq<seq<nat>>, W: set<nat>,
                                       temp: seq<seq<nat>>, k: nat)
    requires Decomposition(E, V, result) && Decomposition(E, W, temp) && k <= |temp|
    ensures Decomposition(E, V + UnionOf(SetsOf(temp), k), result + NotIn(temp[..k], result))
  {
    hide Reach, Decomposition, Ascending, IsComponent;
    if k == 0 {
      assert result + NotIn(temp[..0], result) == result;
      assert V + UnionOf(SetsOf(temp), 0) == V;
    } else {
      MergePrefix(E, V, result, W, temp, k - 1);
      NextListEdges(E, W, temp, k - 1);
      var l := temp[k - 1];
      assert temp[..k][..k - 1] == temp[..k - 1];
      assert V + UnionOf(SetsOf(temp), k) == V + UnionOf(SetsOf(temp), k - 1) + SetOf(l);
      var merged := result + NotIn(temp[..k - 1], result);
      if l in result {
        ListInside(E, V, result, l);
        assert V + UnionOf(SetsOf(temp), k) == V + UnionOf(SetsOf(temp), k - 1);
        assert result + NotIn(temp[..k], result) == merged;
      } else {
        DistinctLists(E, W, temp, k - 1);
        NotInMembers(temp[..k - 1], result, l);
        AppendComponent(E, V + UnionOf(SetsOf(temp), k - 1), merged, l);
        assert result + NotIn(temp[..k], result) == merged + [l];
      }
    }
  }

  /** Merging the decompositions of two closed sets decomposes their union. */
  lemma MergeDecompositions(E: set<(nat, nat)>, V: set<nat>, result: seq<seq<nat>>, W: set<nat>, temp: seq<seq<nat>>)
    requires Decomposition(E, V, result) && Decomposition(E, W, temp)
    ensures Decomposition(E, V + W, result + NotIn(temp, result))
  {
    MergePrefix(E, V, result, W, temp, |temp|);
    assert temp[..|temp|] == temp;
    UnionIsAll(E, W, temp);
  }

  lemma UnionIsAll(E: set<(nat, nat)>, W: set<nat>, temp: seq<seq<nat>>)
    requires Decomposition(E, W, temp)
    ensures UnionOf(SetsOf(temp), |temp|) == W
  {
    hide Reach, IsComponent, Ordered, Disjoint, Ascending;
  }
}
