/** How many different sets of markings there are. */
module Counting {
  import opened Components
  import opened Lists
  import opened Sets

  function Pow(base: nat, k: nat): nat {
    if k == 0 then 1 else base * Pow(base, k - 1)
  }

  ghost predicate Below(F: set<set<nat>>, n: nat) {
    forall S, x :: S in F && x in S ==> x < n
  }

  ghost function Without(F: set<set<nat>>, x: nat): set<set<nat>> {
    set S | S in F && x !in S
  }

  ghost function Removed(F: set<set<nat>>, x: nat): set<set<nat>> {
    set S | S in F && x in S :: S - {x}
  }

  lemma {:induction false} RemovedCount(F: set<set<nat>>, x: nat)
    ensures |F| == |Without(F, x)| + |Removed(F, x)|
    decreases |F|
  {
    if F == {} {
      assert Without(F, x) == {} && Removed(F, x) == {};
    } else {
      var S :| S in F;
      var G := F - {S};
      RemovedCount(G, x);
      if x in S {
        assert Without(F, x) == Without(G, x);
        assert Removed(F, x) == Removed(G, x) + {S - {x}};
        assert S - {x} !in Removed(G, x) by {
          forall R | R in G && x in R ensures R - {x} != S - {x} {
            assert R == R - {x} + {x} && S == S - {x} + {x};
          }
        }
      } else {
        assert Without(F, x) == Without(G, x) + {S};
        assert Removed(F, x) == Removed(G, x);
      }
    }
  }

  /** A family of sets of numbers below n has at most 2^n members. */
  lemma {:induction false} FamilyBound(F: set<set<nat>>, n: nat)
    requires Below(F, n)
    ensures |F| <= Pow(2, n)
    decreases n
  {
    if n == 0 {
      forall S | S in F ensures S == {} { assert forall x :: x in S ==> x < 0; }
      assert F <= {{}};
      SubsetSize(F, {{}});
    } else {
      RemovedCount(F, n - 1);
      assert Below(Without(F, n - 1), n - 1) by {
        forall S, x | S in Without(F, n - 1) && x in S ensures x < n - 1 { assert S in F; }
      }
      FamilyBound(Without(F, n - 1), n - 1);
      FamilyBound(Removed(F, n - 1), n - 1);
    }
  }

  ghost function SetsIn(lists: seq<seq<nat>>): set<set<nat>> {
    set l | l in lists :: SetOf(l)
  }

  /** Pairwise different ascending lists of numbers below n: at most 2^n of them. */
  lemma ListsBound(lists: seq<seq<nat>>, n: nat)
    requires Distinct(lists)
    requires forall i :: 0 <= i < |lists| ==> Ascending(lists[i])
    requires forall i, x :: 0 <= i < |lists| && x in lists[i] ==> x < n
    ensures |lists| <= Pow(2, n)
  {
    assert Below(SetsIn(lists), n);
    FamilyBound(SetsIn(lists), n);
    ListsCount(lists);
  }

  /** A list that is different from the others adds a set. */
  lemma OneMoreList(front: seq<seq<nat>>, last: seq<nat>)
    requires Ascending(last) && last !in front && forall l :: l in front ==> Ascending(l)
    ensures |SetsIn(front + [last])| == |SetsIn(front)| + 1
  {
    hide Ascending;
    assert SetsIn(front + [last]) == SetsIn(front) + {SetOf(last)} by {
      assert forall l :: l in front + [last] <==> l in front || l == last;
    }
    forall l | l in front ensures SetOf(l) != SetOf(last) {
      if SetOf(l) == SetOf(last) { AscendingUnique(l, last); }
    }
  }

  lemma {:induction false} ListsCount(lists: seq<seq<nat>>)
    requires Distinct(lists)
    requires forall i :: 0 <= i < |lists| ==> Ascending(lists[i])
    ensures |SetsIn(lists)| == |lists|
  {
    hide Ascending;
    if lists == [] {
      assert SetsIn(lists) == {};
    } else {
      var front, last := lists[..|lists| - 1], lists[|lists| - 1];
      assert forall i :: 0 <= i < |front| ==> front[i] == lists[i];
      ListsCount(front);
      assert lists == front + [last];
      OneMoreList(front, last);
    }
  }
}
