/**
 Strongly connected components by depth-first search.

 The state of a search is a value (Search): depth-first numbers, the stack, and
 the components completed so far.  The lemmas say what each step of the
 algorithm does to that value; the two searches of the repository (one over the
 tau-steps of a marking graph, one over the places of a net) are loops and
 recursive methods whose steps are exactly these.
*/
module Components {
  import opened Reachability

  /** num: depth-first numbers of the visited vertices; stack: bottom first;
      comps: the completed components, oldest first. */
  datatype Search<T> = Search(num: map<T, int>, stack: seq<T>, comps: seq<set<T>>)

  function SetOf<T>(s: seq<T>): set<T> {
    set x | x in s
  }

  ghost predicate IsComponent<T(!new)>(E: set<(T, T)>, C: set<T>) {
    && C != {}
    && (forall x, y :: x in C && y in C ==> Reach(E, x, y))
    && (forall x, y :: x in C && Reach(E, x, y) && Reach(E, y, x) ==> y in C)
  }

  // ---------- the invariant of the search ----------

  ghost predicate NumOK<T(!new)>(num: map<T, int>, max: int) {
    forall x :: x in num ==> 0 <= num[x] < max
  }

  ghost predicate StackOK<T(!new)>(E: set<(T, T)>, num: map<T, int>, stack: seq<T>) {
    && (forall i :: 0 <= i < |stack| ==> stack[i] in num)
    && (forall i, j :: 0 <= i < j < |stack| ==> num[stack[i]] < num[stack[j]])
    && (forall i, j :: 0 <= i < j < |stack| ==> Reach(E, stack[i], stack[j]))
  }

  /** Every vertex on the stack reaches an active (gray) vertex below it. */
  ghost predicate ReachesGray<T(!new)>(E: set<(T, T)>, num: map<T, int>, gray: set<T>, y: T)
    requires y in num
  {
    exists x :: x in gray && x in num && num[x] <= num[y] && Reach(E, y, x)
  }

  ghost predicate GrayOK<T(!new)>(E: set<(T, T)>, num: map<T, int>, stack: seq<T>, gray: set<T>) {
    && (forall x :: x in gray ==> x in stack)
    && (forall y :: y in stack ==> y in num && ReachesGray(E, num, gray, y))
  }

  ghost predicate BlackOK<T(!new)>(E: set<(T, T)>, num: map<T, int>, gray: set<T>) {
    forall x, y :: x in num && x !in gray && (x, y) in E ==> y in num
  }

  ghost predicate InComps<T>(comps: seq<set<T>>, n: int, x: T) {
    exists j :: 0 <= j < n <= |comps| && x in comps[j]
  }

  /** Every edge out of a component leads into it or into an earlier one. */
  ghost predicate Ordered<T(!new)>(E: set<(T, T)>, comps: seq<set<T>>) {
    forall i, x, y :: 0 <= i < |comps| && x in comps[i] && (x, y) in E ==> InComps(comps, i + 1, y)
  }

  ghost predicate Disjoint<T>(comps: seq<set<T>>) {
    forall i, j :: 0 <= i < j < |comps| ==> comps[i] !! comps[j]
  }

  ghost predicate CompsOK<T(!new)>(E: set<(T, T)>, num: map<T, int>, stack: seq<T>, comps: seq<set<T>>) {
    && (forall x :: x in num ==> x in stack || InComps(comps, |comps|, x))
    && (forall i, x :: 0 <= i < |comps| && x in comps[i] ==> x in num && x !in stack)
    && Disjoint(comps)
    && (forall i :: 0 <= i < |comps| ==> IsComponent(E, comps[i]))
    && Ordered(E, comps)
  }

  ghost predicate Inv<T(!new)>(E: set<(T, T)>, s: Search<T>, gray: set<T>, max: int) {
    && NumOK(s.num, max)
    && StackOK(E, s.num, s.stack)
    && GrayOK(E, s.num, s.stack, gray)
    && BlackOK(E, s.num, gray)
    && CompsOK(E, s.num, s.stack, s.comps)
  }

  ghost predicate Extends<T(!new)>(s: Search<T>, s': Search<T>) {
    && (forall x :: x in s.num ==> x in s'.num && s'.num[x] == s.num[x])
    && s.stack <= s'.stack
    && s.comps <= s'.comps
  }

  /** Edges from the new part of the stack to its old part are accounted for in low. */
  ghost predicate Crossing<T(!new)>(E: set<(T, T)>, num: map<T, int>, more: seq<T>, old_: seq<T>, low: int) {
    forall u, y :: u in more && y in old_ && y in num && (u, y) in E ==> low <= num[y]
  }

  ghost predicate StackKnown<T(!new)>(s: Search<T>, gray: set<T>) {
    && (forall x :: x in s.stack ==> x in s.num)
    && (forall x :: x in gray ==> x in s.stack)
  }

  ghost predicate SeenOK<T(!new)>(num: map<T, int>, old_: seq<T>, low: int, seen: set<T>) {
    forall w :: w in seen ==> w in num && (w in old_ ==> low <= num[w])
  }

  ghost predicate NewReached<T(!new)>(E: set<(T, T)>, num: map<T, int>, num': map<T, int>, v: T) {
    forall u :: u in num' && u !in num ==> Reach(E, v, u)
  }

  ghost predicate LowWitness<T(!new)>(E: set<(T, T)>, num: map<T, int>, stack: seq<T>, v: T, low: int) {
    exists y :: y in stack && y in num && num[y] == low && Reach(E, v, y)
  }

  /** What a completed visit of v, started in s with the given counter, has achieved. */
  ghost predicate Done<T(!new)>(E: set<(T, T)>, s: Search<T>, s': Search<T>, gray: set<T>, max: int, max': int, v: T,
                         low: int) {
    && Inv(E, s', gray, max')
    && Extends(s, s')
    && max < max'
    && v in s'.num && s'.num[v] == max
    && (if low == max then s'.stack == s.stack
        else low < max && LowWitness(E, s.num, s.stack, v, low))
    && Crossing(E, s'.num, s'.stack[|s.stack|..], s.stack, low)
    && NewReached(E, s.num, s'.num, v)
  }

  /** The state of a visit of v that has dealt with the neighbours in seen. */
  ghost predicate Scan<T(!new)>(E: set<(T, T)>, s: Search<T>, s': Search<T>, gray: set<T>, max: int, max': int, v: T,
                         low: int, seen: set<T>) {
    && Inv(E, s', gray + {v}, max')
    && Extends(s, s')
    && StackKnown(s, gray)
    && v !in s.num && s.stack + [v] <= s'.stack
    && max < max'
    && v in s'.num && s'.num[v] == max
    && low <= max
    && LowWitness(E, s'.num, s'.stack, v, low)
    && Crossing(E, s'.num, s'.stack[|s.stack| + 1..], s.stack, low)
    && SeenOK(s'.num, s.stack, low, seen)
    && NewReached(E, s.num, s'.num, v)
  }

  // ---------- the steps ----------

  /** Every gray vertex reaches the neighbours of the vertex being scanned. */
  lemma GrayReaches<T(!new)>(E: set<(T, T)>, s0: Search<T>, s: Search<T>, gray: set<T>, max0: int, max: int,
                             v: T, low: int, seen: set<T>, w: T)
    requires Scan(E, s0, s, gray, max0, max, v, low, seen) && (v, w) in E
    ensures forall x :: x in gray + {v} ==> Reach(E, x, w)
  {
    hide Reach, GrayOK, BlackOK, CompsOK, NumOK, Crossing, NewReached, LowWitness, SeenOK;
    ReachEdge(E, v, w);
    assert s.stack[|s0.stack|] == v;
    forall x | x in gray ensures Reach(E, x, w) {
      var i :| 0 <= i < |s0.stack| && s0.stack[i] == x;
      assert s.stack[i] == x;
      ReachTrans(E, x, v, w);
    }
  }

  function Push<T>(s: Search<T>, v: T, max: int): Search<T> {
    Search(s.num[v := max], s.stack + [v], s.comps)
  }

  /** Every vertex on the stack reaches v once every gray vertex does. */
  lemma StackReaches<T(!new)>(E: set<(T, T)>, s: Search<T>, gray: set<T>, v: T)
    requires GrayOK(E, s.num, s.stack, gray)
    requires forall x :: x in gray ==> Reach(E, x, v)
    ensures forall x :: x in s.stack ==> Reach(E, x, v)
  {
    forall x | x in s.stack ensures Reach(E, x, v) {
      var z :| z in gray && z in s.num && s.num[z] <= s.num[x] && Reach(E, x, z);
      ReachTrans(E, x, z, v);
    }
  }

  lemma PushStack<T(!new)>(E: set<(T, T)>, s: Search<T>, v: T, max: int)
    requires NumOK(s.num, max) && StackOK(E, s.num, s.stack)
    requires v !in s.num
    requires forall x :: x in s.stack ==> Reach(E, x, v)
    ensures StackOK(E, Push(s, v, max).num, Push(s, v, max).stack)
  {
    var s' := Push(s, v, max);
    forall i, j | 0 <= i < j < |s'.stack|
      ensures s'.num[s'.stack[i]] < s'.num[s'.stack[j]] && Reach(E, s'.stack[i], s'.stack[j])
    {
      assert s'.stack[i] == s.stack[i] && s.stack[i] in s.num;
      if j < |s.stack| {
        assert s'.stack[j] == s.stack[j];
      } else {
        assert s.stack[i] in s.stack;
      }
    }
  }

  lemma PushGrayAt<T(!new)>(E: set<(T, T)>, num: map<T, int>, gray: set<T>, v: T, max: int, y: T)
    requires y in num && v !in num && ReachesGray(E, num, gray, y)
    ensures ReachesGray(E, num[v := max], gray + {v}, y)
  {
    hide Reach;
    var x :| x in gray && x in num && num[x] <= num[y] && Reach(E, y, x);
    assert x in gray + {v};
  }

  lemma PushGrayNew<T(!new)>(E: set<(T, T)>, num: map<T, int>, gray: set<T>, v: T, max: int)
    ensures ReachesGray(E, num[v := max], gray + {v}, v)
  {
    hide Reach;
    ReachRefl(E, v);
    assert v in gray + {v};
  }

  lemma PushGray<T(!new)>(E: set<(T, T)>, s: Search<T>, gray: set<T>, v: T, max: int)
    requires GrayOK(E, s.num, s.stack, gray) && v !in s.num
    ensures GrayOK(E, Push(s, v, max).num, Push(s, v, max).stack, gray + {v})
  {
    hide Reach, ReachesGray;
    PushGrayNew(E, s.num, gray, v, max);
    var stack := s.stack + [v];
    assert v in stack by { assert stack[|s.stack|] == v; }
    assert forall y :: y in s.stack ==> y in stack;
    forall y | y in stack ensures y in s.num[v := max] && ReachesGray(E, s.num[v := max], gray + {v}, y) {
      if y != v {
        assert y in s.stack;
        PushGrayAt(E, s.num, gray, v, max, y);
      }
    }
  }

  lemma PushComps<T(!new)>(E: set<(T, T)>, s: Search<T>, v: T, max: int)
    requires CompsOK(E, s.num, s.stack, s.comps) && v !in s.num
    ensures CompsOK(E, Push(s, v, max).num, Push(s, v, max).stack, s.comps)
  {
    hide Ordered, IsComponent, Disjoint;
    var s' := Push(s, v, max);
    assert v in s'.stack by { assert s'.stack[|s.stack|] == v; }
    forall x | x in s'.num ensures x in s'.stack || InComps(s.comps, |s.comps|, x) {
      if x != v && x in s.stack { assert x in s'.stack; }
    }
  }

  lemma Known<T(!new)>(E: set<(T, T)>, s: Search<T>, gray: set<T>, max: int)
    requires Inv(E, s, gray, max)
    ensures StackKnown(s, gray)
  {
    hide Reach, CompsOK, BlackOK;
  }

  /** Pushing a new vertex starts its scan. */
  lemma Enter<T(!new)>(E: set<(T, T)>, s: Search<T>, gray: set<T>, max: int, v: T)
    requires Inv(E, s, gray, max) && 0 <= max
    requires v !in s.num
    requires forall x :: x in gray ==> Reach(E, x, v)
    ensures Scan(E, s, Push(s, v, max), gray, max, max + 1, v, max, {})
  {
    hide Reach, StackOK, GrayOK, CompsOK;
    var s' := Push(s, v, max);
    Known(E, s, gray, max);
    StackReaches(E, s, gray, v);
    PushStack(E, s, v, max);
    PushGray(E, s, gray, v, max);
    PushComps(E, s, v, max);
    ReachRefl(E, v);
    assert v in s'.stack by { assert s'.stack[|s.stack|] == v; }
    assert s'.stack[|s.stack| + 1..] == [];
  }

  function Min(a: int, b: int): int {
    if a < b then a else b
  }

  lemma CrossingWeaken<T(!new)>(E: set<(T, T)>, num: map<T, int>, more: seq<T>, old_: seq<T>, low: int, low': int)
    requires Crossing(E, num, more, old_, low) && low' <= low
    ensures Crossing(E, num, more, old_, low')
  {
  }

  lemma PrefixIn<T>(a: seq<T>, b: seq<T>, x: T)
    requires a <= b && x in a
    ensures x in b
  {
    var i :| 0 <= i < |a| && a[i] == x;
    assert b[i] == x;
  }

  /** The neighbour w was already visited and is still on the stack. */
  lemma SeenOnStack<T(!new)>(E: set<(T, T)>, s: Search<T>, s': Search<T>, gray: set<T>, max: int, max': int, v: T,
                      low: int, seen: set<T>, w: T)
    requires Scan(E, s, s', gray, max, max', v, low, seen)
    requires (v, w) in E && w in s'.num && w in s'.stack
    ensures Scan(E, s, s', gray, max, max', v, Min(low, s'.num[w]), seen + {w})
  {
    hide Inv, Reach;
    ReachEdge(E, v, w);
    CrossingWeaken(E, s'.num, s'.stack[|s.stack| + 1..], s.stack, low, Min(low, s'.num[w]));
  }

  /** The neighbour w was already visited and belongs to a completed component. */
  lemma SeenDone<T(!new)>(E: set<(T, T)>, s: Search<T>, s': Search<T>, gray: set<T>, max: int, max': int, v: T,
                   low: int, seen: set<T>, w: T)
    requires Scan(E, s, s', gray, max, max', v, low, seen)
    requires w in s'.num && w !in s'.stack
    ensures Scan(E, s, s', gray, max, max', v, low, seen + {w})
  {
    hide Inv, Reach, Crossing;
    if w in s.stack { PrefixIn(s.stack, s'.stack, w); }
  }

  // ---------- back from the visit of a new neighbour ----------

  lemma ChildLow<T(!new)>(E: set<(T, T)>, s: Search<T>, s': Search<T>, v: T, low: int, w: T, loww: int, max: int)
    requires Extends(s, s') && (v, w) in E
    requires low < max
    requires LowWitness(E, s.num, s.stack, v, low)
    requires loww == max || LowWitness(E, s.num, s.stack, w, loww)
    ensures LowWitness(E, s'.num, s'.stack, v, Min(low, loww))
  {
    hide Reach;
    if loww < low {
      var y :| y in s.stack && y in s.num && s.num[y] == loww && Reach(E, w, y);
      PrefixIn(s.stack, s'.stack, y);
      ReachEdge(E, v, w);
      ReachTrans(E, v, w, y);
    } else {
      var y :| y in s.stack && y in s.num && s.num[y] == low && Reach(E, v, y);
      PrefixIn(s.stack, s'.stack, y);
    }
  }

  lemma ChildCrossing<T(!new)>(E: set<(T, T)>, s0: Search<T>, s: Search<T>, s': Search<T>, v: T, low: int, loww: int)
    requires Extends(s, s') && s0.stack + [v] <= s.stack
    requires StackOK(E, s.num, s.stack)
    requires Crossing(E, s.num, s.stack[|s0.stack| + 1..], s0.stack, low)
    requires Crossing(E, s'.num, s'.stack[|s.stack|..], s.stack, loww)
    ensures Crossing(E, s'.num, s'.stack[|s0.stack| + 1..], s0.stack, Min(low, loww))
  {
    forall u, y | u in s'.stack[|s0.stack| + 1..] && y in s0.stack && y in s'.num && (u, y) in E
      ensures Min(low, loww) <= s'.num[y]
    {
      PrefixIn(s0.stack, s.stack, y);
      assert y in s.num;
      assert s'.stack[|s0.stack| + 1..] == s.stack[|s0.stack| + 1..] + s'.stack[|s.stack|..];
      if u in s.stack[|s0.stack| + 1..] {
      } else {
        assert u in s'.stack[|s.stack|..];
      }
    }
  }

  lemma ChildReached<T(!new)>(E: set<(T, T)>, s0: Search<T>, s: Search<T>, s': Search<T>, v: T, w: T)
    requires NewReached(E, s0.num, s.num, v) && NewReached(E, s.num, s'.num, w) && (v, w) in E
    ensures NewReached(E, s0.num, s'.num, v)
  {
    hide Reach;
    ReachEdge(E, v, w);
    forall u | u in s'.num && u !in s0.num ensures Reach(E, v, u) {
      if u !in s.num { ReachTrans(E, v, w, u); }
    }
  }

  /** The scan of v continues after the complete visit of its neighbour w. */
  lemma AfterChild<T(!new)>(E: set<(T, T)>, s0: Search<T>, s: Search<T>, s': Search<T>, gray: set<T>,
                            max0: int, max: int, max': int, v: T, low: int, seen: set<T>, w: T, loww: int)
    requires Scan(E, s0, s, gray, max0, max, v, low, seen)
    requires (v, w) in E && w !in s.num
    requires Done(E, s, s', gray + {v}, max, max', w, loww)
    ensures Scan(E, s0, s', gray, max0, max', v, Min(low, loww), seen + {w})
  {
    hide Crossing, NewReached, LowWitness, Reach, StackOK, GrayOK, BlackOK, CompsOK, NumOK;
    Known(E, s, gray + {v}, max);
    if w in s0.stack { PrefixIn(s0.stack, s.stack, w); }
    ChildLow(E, s, s', v, low, w, loww, max);
    ChildCrossing(E, s0, s, s', v, low, loww);
    ChildReached(E, s0, s, s', v, w);
  }

  // ---------- the end of a visit ----------

  /** All neighbours of v have been dealt with. */
  ghost predicate AllSeen<T(!new)>(E: set<(T, T)>, v: T, seen: set<T>) {
    forall y :: (v, y) in E ==> y in seen
  }

  /** On a stack that extends old by v, a vertex numbered below v lies in old. */
  lemma BelowIsOld<T(!new)>(E: set<(T, T)>, num: map<T, int>, old_: seq<T>, v: T, stack: seq<T>, y: T)
    requires StackOK(E, num, stack) && old_ + [v] <= stack
    requires y in stack
    ensures v in num && y in num && (num[y] < num[v] ==> y in old_)
    ensures y in old_ ==> num[y] < num[v]
    ensures y in stack[|old_|..] <==> y !in old_
  {
    hide Reach;
    assert stack[|old_|] == v;
    assert stack[..|old_|] == old_;
    var i :| 0 <= i < |stack| && stack[i] == y;
    if y in old_ {
      var j :| 0 <= j < |old_| && old_[j] == y;
      assert stack[j] == y;
      assert forall k :: |old_| <= k < |stack| ==> stack[k] != y;
    } else {
      assert |old_| <= i;
      assert stack[|old_|..][i - |old_|] == y;
    }
  }

  lemma VisitedBlack<T(!new)>(E: set<(T, T)>, num: map<T, int>, gray: set<T>, v: T, old_: seq<T>, low: int,
                       seen: set<T>)
    requires BlackOK(E, num, gray + {v}) && SeenOK(num, old_, low, seen) && AllSeen(E, v, seen)
    ensures BlackOK(E, num, gray)
  {
    forall x, y | x in num && x !in gray && (x, y) in E ensures y in num {
      if x != v { assert x !in gray + {v}; }
    }
  }

  lemma FullCrossing<T(!new)>(E: set<(T, T)>, num: map<T, int>, old_: seq<T>, v: T, stack: seq<T>, low: int,
                       seen: set<T>)
    requires old_ + [v] <= stack
    requires Crossing(E, num, stack[|old_| + 1..], old_, low)
    requires SeenOK(num, old_, low, seen) && AllSeen(E, v, seen)
    ensures Crossing(E, num, stack[|old_|..], old_, low)
  {
    assert stack[|old_|..] == [v] + stack[|old_| + 1..];
    forall u, y | u in stack[|old_|..] && y in old_ && y in num && (u, y) in E ensures low <= num[y] {
      if u != v { assert u in stack[|old_| + 1..]; }
    }
  }

  lemma GrayOf<T(!new)>(E: set<(T, T)>, num: map<T, int>, stack: seq<T>, gray: set<T>, y: T) returns (x: T)
    requires GrayOK(E, num, stack, gray) && y in stack
    ensures y in num && x in gray && x in stack && x in num && num[x] <= num[y] && Reach(E, y, x)
  {
    hide Reach;
    assert y in num && ReachesGray(E, num, gray, y);
    x :| x in gray && x in num && num[x] <= num[y] && Reach(E, y, x);
  }

  lemma GrayFrom<T(!new)>(E: set<(T, T)>, num: map<T, int>, stack: seq<T>, gray: set<T>)
    requires forall x :: x in gray ==> x in stack
    requires forall y :: y in stack ==> y in num && ReachesGray(E, num, gray, y)
    ensures GrayOK(E, num, stack, gray)
  {
    hide ReachesGray;
  }

  lemma KeepGrayAt<T(!new)>(E: set<(T, T)>, num: map<T, int>, gray: set<T>, v: T, stack: seq<T>, low: int, y: T)
    requires GrayOK(E, num, stack, gray + {v})
    requires v in num && low < num[v] && LowWitness(E, num, stack, v, low)
    requires y in stack
    ensures y in num && ReachesGray(E, num, gray, y)
  {
    hide Reach, GrayOK;
    var x := GrayOf(E, num, stack, gray + {v}, y);
    if x == v {
      var z :| z in stack && z in num && num[z] == low && Reach(E, v, z);
      var g := GrayOf(E, num, stack, gray + {v}, z);
      assert g in gray;
      ReachTrans(E, v, z, g);
      ReachTrans(E, y, v, g);
    } else {
      assert x in gray;
    }
  }

  lemma KeepGray<T(!new)>(E: set<(T, T)>, num: map<T, int>, gray: set<T>, v: T, stack: seq<T>, low: int)
    requires GrayOK(E, num, stack, gray + {v})
    requires forall x :: x in gray ==> x in stack
    requires v in num && low < num[v] && LowWitness(E, num, stack, v, low)
    ensures GrayOK(E, num, stack, gray)
  {
    hide Reach, GrayOK, LowWitness, ReachesGray;
    forall y | y in stack ensures y in num && ReachesGray(E, num, gray, y) {
      KeepGrayAt(E, num, gray, v, stack, low, y);
    }
    GrayFrom(E, num, stack, gray);
  }

  lemma OldLow<T(!new)>(E: set<(T, T)>, s: Search<T>, s': Search<T>, v: T, low: int)
    requires StackOK(E, s'.num, s'.stack) && Extends(s, s') && s.stack + [v] <= s'.stack
    requires forall x :: x in s.stack ==> x in s.num
    requires v in s'.num && low < s'.num[v] && LowWitness(E, s'.num, s'.stack, v, low)
    ensures LowWitness(E, s.num, s.stack, v, low)
  {
    hide Reach, StackOK;
    var z :| z in s'.stack && z in s'.num && s'.num[z] == low && Reach(E, v, z);
    BelowIsOld(E, s'.num, s.stack, v, s'.stack, z);
  }

  /** v belongs to the component of an older vertex: everything stays on the stack. */
  lemma FinishKeep<T(!new)>(E: set<(T, T)>, s: Search<T>, s': Search<T>, gray: set<T>, max: int, max': int, v: T,
                     low: int, seen: set<T>)
    requires Scan(E, s, s', gray, max, max', v, low, seen)
    requires AllSeen(E, v, seen) && low < max
    ensures Done(E, s, s', gray, max, max', v, low)
  {
    hide Crossing, NewReached, LowWitness, Reach, StackOK, GrayOK, BlackOK, CompsOK, NumOK, SeenOK, AllSeen;
    VisitedBlack(E, s'.num, gray, v, s.stack, low, seen);
    FullCrossing(E, s'.num, s.stack, v, s'.stack, low, seen);
    forall x | x in gray ensures x in s'.stack { PrefixIn(s.stack, s'.stack, x); }
    KeepGray(E, s'.num, gray, v, s'.stack, low);
    OldLow(E, s, s', v, low);
  }

  // ---------- popping a component ----------

  function Pop<T>(s: Search<T>, h: nat): Search<T>
    requires h <= |s.stack|
  {
    Search(s.num, s.stack[..h], s.comps + [SetOf(s.stack[h..])])
  }

  lemma PopGrayAt<T(!new)>(E: set<(T, T)>, num: map<T, int>, old_: seq<T>, gray: set<T>, v: T, stack: seq<T>, y: T)
    requires StackOK(E, num, stack) && GrayOK(E, num, stack, gray + {v}) && old_ + [v] <= stack
    requires y in old_
    ensures y in num && ReachesGray(E, num, gray, y)
  {
    hide Reach, GrayOK, StackOK;
    PrefixIn(old_, stack, y);
    BelowIsOld(E, num, old_, v, stack, y);
    var x := GrayOf(E, num, stack, gray + {v}, y);
    assert x in gray;
  }

  lemma PopGray<T(!new)>(E: set<(T, T)>, num: map<T, int>, old_: seq<T>, gray: set<T>, v: T, stack: seq<T>)
    requires StackOK(E, num, stack) && GrayOK(E, num, stack, gray + {v}) && old_ + [v] <= stack
    requires forall x :: x in gray ==> x in old_
    ensures GrayOK(E, num, old_, gray)
  {
    hide Reach, StackOK, GrayOK, ReachesGray;
    forall y | y in old_ ensures y in num && ReachesGray(E, num, gray, y) {
      PopGrayAt(E, num, old_, gray, v, stack, y);
    }
    GrayFrom(E, num, old_, gray);
  }

  lemma PopStack<T(!new)>(E: set<(T, T)>, num: map<T, int>, old_: seq<T>, stack: seq<T>)
    requires StackOK(E, num, stack) && old_ <= stack
    ensures StackOK(E, num, old_)
  {
    hide Reach;
    forall i | 0 <= i < |old_| ensures old_[i] == stack[i] { }
  }

  lemma InCompsMono<T>(comps: seq<set<T>>, more: seq<set<T>>, n: int, m: int, x: T)
    requires InComps(comps, n, x) && n <= m <= |comps + more|
    ensures InComps(comps + more, m, x)
  {
    var j :| 0 <= j < n <= |comps| && x in comps[j];
    assert (comps + more)[j] == comps[j];
  }

  lemma InCompsLast<T>(comps: seq<set<T>>, C: set<T>, x: T)
    requires InComps(comps + [C], |comps| + 1, x)
    ensures x in C || InComps(comps, |comps|, x)
  {
    var j :| 0 <= j < |comps| + 1 && x in (comps + [C])[j];
    assert j < |comps| ==> x in comps[j];
  }

  /** Every edge out of the popped part leads into it or into a completed component. */
  lemma PopEdges<T(!new)>(E: set<(T, T)>, num: map<T, int>, old_: seq<T>, gray: set<T>, v: T, stack: seq<T>,
                   comps: seq<set<T>>, x: T, y: T)
    requires StackOK(E, num, stack) && BlackOK(E, num, gray) && old_ + [v] <= stack
    requires forall z :: z in gray ==> z in old_
    requires CompsOK(E, num, stack, comps)
    requires v in num && Crossing(E, num, stack[|old_|..], old_, num[v])
    requires x in stack[|old_|..] && (x, y) in E
    ensures y in stack[|old_|..] || InComps(comps, |comps|, y)
  {
    hide Reach, StackOK, IsComponent, Ordered, Disjoint;
    assert x in stack;
    BelowIsOld(E, num, old_, v, stack, x);
    assert y in num;
    if y in stack {
      BelowIsOld(E, num, old_, v, stack, y);
    }
  }

  lemma PopOrdered<T(!new)>(E: set<(T, T)>, num: map<T, int>, old_: seq<T>, gray: set<T>, v: T, stack: seq<T>,
                     comps: seq<set<T>>)
    requires StackOK(E, num, stack) && BlackOK(E, num, gray) && old_ + [v] <= stack
    requires forall z :: z in gray ==> z in old_
    requires CompsOK(E, num, stack, comps)
    requires v in num && Crossing(E, num, stack[|old_|..], old_, num[v])
    ensures Ordered(E, comps + [SetOf(stack[|old_|..])])
  {
    hide Reach, StackOK, BlackOK, CompsOK, Crossing, IsComponent, InComps;
    var C := SetOf(stack[|old_|..]);
    var cs := comps + [C];
    forall i, x, y | 0 <= i < |cs| && x in cs[i] && (x, y) in E ensures InComps(cs, i + 1, y) {
      if i < |comps| {
        assert Ordered(E, comps) by { CompsOrdered(E, num, stack, comps); }
        assert x in comps[i];
        InCompsMono(comps, [C], i + 1, i + 1, y);
      } else {
        PopEdges(E, num, old_, gray, v, stack, comps, x, y);
        if y in C {
          InCompsAt(cs, i, i + 1, y);
        } else {
          InCompsMono(comps, [C], |comps|, i + 1, y);
        }
      }
    }
  }

  lemma CompsOrdered<T(!new)>(E: set<(T, T)>, num: map<T, int>, stack: seq<T>, comps: seq<set<T>>)
    requires CompsOK(E, num, stack, comps)
    ensures Ordered(E, comps)
  {
    hide Ordered, IsComponent, Disjoint;
  }

  lemma InCompsAt<T>(comps: seq<set<T>>, j: int, n: int, x: T)
    requires 0 <= j < n <= |comps| && x in comps[j]
    ensures InComps(comps, n, x)
  {
  }

  /** The union of the first n components is closed under edges. */
  lemma OrderedClosed<T(!new)>(E: set<(T, T)>, comps: seq<set<T>>, n: nat, x: T, y: T)
    requires Ordered(E, comps) && n <= |comps|
    requires InComps(comps, n, x) && Reach(E, x, y)
    ensures InComps(comps, n, y)
  {
    hide Reach, Closed;
    var S := set i, z | 0 <= i < n && z in comps[i] :: z;
    assert Closed(E, S) by { OrderedClosedAux(E, comps, n, S); }
    ReachStaysInClosed(E, S, x, y);
    var j :| 0 <= j < n && y in comps[j];
  }

  lemma OrderedClosedAux<T(!new)>(E: set<(T, T)>, comps: seq<set<T>>, n: nat, S: set<T>)
    requires Ordered(E, comps) && n <= |comps|
    requires S == set i, z | 0 <= i < n && z in comps[i] :: z
    ensures Closed(E, S)
  {
    forall x, y | x in S && (x, y) in E ensures y in S {
      var i :| 0 <= i < n && x in comps[i];
      assert InComps(comps, i + 1, y);
    }
  }

  /** The popped vertices are not reachable from the components completed before. */
  lemma PopNotBefore<T(!new)>(E: set<(T, T)>, num: map<T, int>, stack: seq<T>, comps: seq<set<T>>, x: T, y: T)
    requires CompsOK(E, num, stack, comps)
    requires x in stack && InComps(comps, |comps|, y)
    ensures !Reach(E, y, x)
  {
    hide Reach, IsComponent, Disjoint, Ordered;
    CompsOrdered(E, num, stack, comps);
    if Reach(E, y, x) { OrderedClosed(E, comps, |comps|, y, x); }
  }

  /** Every popped vertex reaches v. */
  lemma PopReachesRoot<T(!new)>(E: set<(T, T)>, num: map<T, int>, old_: seq<T>, gray: set<T>, v: T, stack: seq<T>,
                         comps: seq<set<T>>, x: T)
    requires StackOK(E, num, stack) && GrayOK(E, num, stack, gray + {v}) && old_ + [v] <= stack
    requires forall z :: z in gray ==> z in old_
    requires Ordered(E, comps + [SetOf(stack[|old_|..])])
    requires CompsOK(E, num, stack, comps)
    requires x in stack[|old_|..]
    ensures Reach(E, x, v)
  {
    hide Reach, StackOK, GrayOK, IsComponent, Disjoint, Ordered;
    var cs := comps + [SetOf(stack[|old_|..])];
    assert x in stack;
    var g := GrayOf(E, num, stack, gray + {v}, x);
    InCompsAt(cs, |comps|, |cs|, x);
    OrderedClosed(E, cs, |cs|, x, g);
    InCompsLast(comps, SetOf(stack[|old_|..]), g);
    BelowIsOld(E, num, old_, v, stack, g);
  }

  lemma PopComponent<T(!new)>(E: set<(T, T)>, num: map<T, int>, old_: seq<T>, gray: set<T>, v: T, stack: seq<T>,
                       comps: seq<set<T>>)
    requires StackOK(E, num, stack) && GrayOK(E, num, stack, gray + {v}) && old_ + [v] <= stack
    requires forall z :: z in gray ==> z in old_
    requires Ordered(E, comps + [SetOf(stack[|old_|..])])
    requires CompsOK(E, num, stack, comps)
    ensures IsComponent(E, SetOf(stack[|old_|..]))
  {
    hide Reach, GrayOK, CompsOK, Ordered, StackOK;
    var C := SetOf(stack[|old_|..]);
    assert v in C by { assert stack[|old_|] == v; assert stack[|old_|..][0] == v; }
    forall x | x in C ensures Reach(E, x, v) && Reach(E, v, x) {
      PopReachesRoot(E, num, old_, gray, v, stack, comps, x);
      RootReaches(E, num, old_, v, stack, x);
    }
    forall x, y | x in C && y in C ensures Reach(E, x, y) { ReachTrans(E, x, v, y); }
    forall x, y | x in C && Reach(E, x, y) && Reach(E, y, x) ensures y in C {
      PopMaximal(E, num, old_, stack, comps, x, y);
    }
  }

  lemma RootReaches<T(!new)>(E: set<(T, T)>, num: map<T, int>, old_: seq<T>, v: T, stack: seq<T>, x: T)
    requires StackOK(E, num, stack) && old_ + [v] <= stack && x in stack[|old_|..]
    ensures Reach(E, v, x)
  {
    hide Reach;
    assert stack[|old_|] == v;
    var i :| |old_| <= i < |stack| && stack[i] == x;
    if i == |old_| { ReachRefl(E, v); }
  }

  lemma PopMaximal<T(!new)>(E: set<(T, T)>, num: map<T, int>, old_: seq<T>, stack: seq<T>, comps: seq<set<T>>, x: T,
                     y: T)
    requires old_ <= stack
    requires Ordered(E, comps + [SetOf(stack[|old_|..])])
    requires CompsOK(E, num, stack, comps)
    requires x in stack[|old_|..] && Reach(E, x, y) && Reach(E, y, x)
    ensures y in stack[|old_|..]
  {
    hide Reach, CompsOK, Ordered;
    var cs := comps + [SetOf(stack[|old_|..])];
    InCompsAt(cs, |comps|, |cs|, x);
    OrderedClosed(E, cs, |cs|, x, y);
    InCompsLast(comps, SetOf(stack[|old_|..]), y);
    if InComps(comps, |comps|, y) {
      assert x in stack;
      PopNotBefore(E, num, stack, comps, x, y);
    }
  }

  lemma PopCovers<T(!new)>(E: set<(T, T)>, num: map<T, int>, old_: seq<T>, v: T, stack: seq<T>, comps: seq<set<T>>,
                    x: T)
    requires StackOK(E, num, stack) && old_ + [v] <= stack
    requires CompsOK(E, num, stack, comps) && x in num
    ensures x in old_ || InComps(comps + [SetOf(stack[|old_|..])], |comps| + 1, x)
  {
    hide Reach, IsComponent, Disjoint, Ordered, InComps, StackOK;
    var C := SetOf(stack[|old_|..]);
    if x in stack {
      BelowIsOld(E, num, old_, v, stack, x);
      if x in C { InCompsAt(comps + [C], |comps|, |comps| + 1, x); }
    } else {
      InCompsMono(comps, [C], |comps|, |comps| + 1, x);
    }
  }

  lemma PopMembers<T(!new)>(E: set<(T, T)>, num: map<T, int>, old_: seq<T>, v: T, stack: seq<T>, comps: seq<set<T>>)
    requires StackOK(E, num, stack) && old_ + [v] <= stack
    requires CompsOK(E, num, stack, comps)
    ensures forall i, x :: 0 <= i <= |comps| && x in (comps + [SetOf(stack[|old_|..])])[i] ==> x in num && x !in old_
    ensures Disjoint(comps + [SetOf(stack[|old_|..])])
  {
    hide Reach, IsComponent, Ordered, StackOK;
    var cs := comps + [SetOf(stack[|old_|..])];
    forall i, x | 0 <= i <= |comps| && x in cs[i] ensures x in num && x !in old_ && (i < |comps| ==> x !in stack) {
      if i == |comps| {
        assert x in stack;
        BelowIsOld(E, num, old_, v, stack, x);
      } else {
        assert x in comps[i];
        if x in old_ { PrefixIn(old_, stack, x); }
      }
    }
    assert Disjoint(comps);
    forall i, j | 0 <= i < j < |cs| ensures cs[i] !! cs[j] {
      if j == |comps| { assert forall x :: x in cs[j] ==> x in stack; }
    }
  }

  lemma PopComps<T(!new)>(E: set<(T, T)>, num: map<T, int>, old_: seq<T>, gray: set<T>, v: T, stack: seq<T>,
                   comps: seq<set<T>>)
    requires StackOK(E, num, stack) && GrayOK(E, num, stack, gray + {v}) && old_ + [v] <= stack
    requires BlackOK(E, num, gray)
    requires forall z :: z in gray ==> z in old_
    requires CompsOK(E, num, stack, comps)
    requires v in num && Crossing(E, num, stack[|old_|..], old_, num[v])
    ensures CompsOK(E, num, old_, comps + [SetOf(stack[|old_|..])])
  {
    hide Reach, StackOK, GrayOK, BlackOK, Crossing, IsComponent, Disjoint, Ordered, InComps;
    var cs := comps + [SetOf(stack[|old_|..])];
    PopOrdered(E, num, old_, gray, v, stack, comps);
    PopComponent(E, num, old_, gray, v, stack, comps);
    PopMembers(E, num, old_, v, stack, comps);
    forall x | x in num ensures x in old_ || InComps(cs, |cs|, x) {
      PopCovers(E, num, old_, v, stack, comps, x);
    }
    forall i | 0 <= i < |cs| ensures IsComponent(E, cs[i]) {
      if i < |comps| { assert cs[i] == comps[i]; }
    }
  }

  /** v is the root of a component, which is popped and completed. */
  lemma FinishPop<T(!new)>(E: set<(T, T)>, s: Search<T>, s': Search<T>, gray: set<T>, max: int, max': int, v: T,
                    low: int, seen: set<T>)
    requires Scan(E, s, s', gray, max, max', v, low, seen)
    requires AllSeen(E, v, seen) && low == max
    ensures |s.stack| <= |s'.stack|
    ensures Done(E, s, Pop(s', |s.stack|), gray, max, max', v, low)
  {
    hide Crossing, NewReached, LowWitness, Reach, StackOK, GrayOK, BlackOK, CompsOK, NumOK, SeenOK, AllSeen;
    VisitedBlack(E, s'.num, gray, v, s.stack, low, seen);
    FullCrossing(E, s'.num, s.stack, v, s'.stack, low, seen);
    PopStack(E, s'.num, s.stack, s'.stack);
    PopGray(E, s'.num, s.stack, gray, v, s'.stack);
    PopComps(E, s'.num, s.stack, gray, v, s'.stack, s'.comps);
    var p := Pop(s', |s.stack|);
    assert p.stack == s.stack;
    CrossingNone(E, s'.num, p.stack[|s.stack|..], s.stack, low);
  }

  lemma CrossingNone<T(!new)>(E: set<(T, T)>, num: map<T, int>, more: seq<T>, old_: seq<T>, low: int)
    requires more == []
    ensures Crossing(E, num, more, old_, low)
  {
  }

  // ---------- the end of a search ----------

  /** With no active vertex left, the components partition the visited set,
      and no edge leaves it. */
  lemma SearchOver<T(!new)>(E: set<(T, T)>, s: Search<T>, max: int)
    requires Inv(E, s, {}, max)
    ensures s.stack == []
    ensures Closed(E, s.num.Keys)
    ensures forall x :: x in s.num <==> InComps(s.comps, |s.comps|, x)
  {
    hide Reach, StackOK, IsComponent, Disjoint, Ordered;
    if s.stack != [] {
      var x := GrayOf(E, s.num, s.stack, {}, s.stack[0]);
      assert false;
    }
  }
}
