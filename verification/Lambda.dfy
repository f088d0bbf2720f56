/** The lambda value of a node: which kinds of stops its markings allow. */
module Lambdas {
  import opened Components
  import opened Lists
  import opened Markings
  import opened Reachability
  import opened TauClosures

  // ---------- the meaning, in terms of markings ----------

  ghost predicate Receives(g: seq<InnerMarking>, ab: Alphabet, m: nat) {
    m < |g| && exists i :: 0 <= i < |g[m].labels| && ab.Receiving(g[m].labels[i])
  }

  /** A stop except for inputs: no tau-run from m ever offers a receiving event. */
  ghost predicate Stop(g: seq<InnerMarking>, ab: Alphabet, m: nat) {
    forall m': nat :: m' < |g| && Reach(TauSteps(g), m, m') ==> !Receives(g, ab, m')
  }

  /** Dead except for inputs: in addition no final marking is reached. */
  ghost predicate DeadStop(g: seq<InnerMarking>, ab: Alphabet, m: nat) {
    forall m': nat :: m' < |g| && Reach(TauSteps(g), m, m') ==> !Receives(g, ab, m') && !g[m'].isFinal
  }

  ghost function Lambda(g: seq<InnerMarking>, ab: Alphabet, V: set<nat>): nat {
    if exists m :: m in V && DeadStop(g, ab, m) then 1
    else if exists m :: m in V && Stop(g, ab, m) then 2
    else 3
  }

  /** The value in terms of labels and final markings alone: 1 if some marking of V silently
      reaches no receiving label (2 .. 1 + receives) and no final marking, otherwise 2 if some
      marking silently reaches no receiving label, otherwise 3. */
  lemma LambdaRules(g: seq<InnerMarking>, ab: Alphabet, V: set<nat>)
    ensures Lambda(g, ab, V) == 1 <==>
            exists m :: m in V &&
                        forall m': nat :: Reach(TauSteps(g), m, m') && m' < |g| ==>
                            QuietAt(g, ab, m') && !g[m'].isFinal
    ensures Lambda(g, ab, V) == 3 <==>
            forall m :: m in V ==> exists m': nat :: Reach(TauSteps(g), m, m') && m' < |g| && !QuietAt(g, ab, m')
    ensures Lambda(g, ab, V) in {1, 2, 3}
  {
    hide Reach, TauSteps;
    LabelRanges(ab);
    forall m: nat | m < |g| ensures QuietAt(g, ab, m) <==> !Receives(g, ab, m) {
      assert forall i :: 0 <= i < |g[m].labels| ==>
          (ab.Receiving(g[m].labels[i]) <==> 2 <= g[m].labels[i] < 2 + ab.receives);
    }
    forall m ensures DeadStop(g, ab, m) <==>
                     forall m': nat :: Reach(TauSteps(g), m, m') && m' < |g| ==>
                         QuietAt(g, ab, m') && !g[m'].isFinal
    {
    }
    forall m | m in V ensures DeadStop(g, ab, m) ==> Stop(g, ab, m) { }
  }

  ghost predicate QuietAt(g: seq<InnerMarking>, ab: Alphabet, m: nat)
    requires m < |g|
  {
    forall i :: 0 <= i < |g[m].labels| ==> !(2 <= g[m].labels[i] < 2 + ab.receives)
  }

  // ---------- the scan, in terms of components ----------

  ghost predicate Leaves(g: seq<InnerMarking>, ab: Alphabet, SCC: seq<nat>, m: nat, i: nat)
    requires m < |g| && i < |g[m].labels| && i < |g[m].successors|
  {
    ab.Receiving(g[m].labels[i]) || (g[m].labels[i] == TAU && g[m].successors[i] !in SCC)
  }

  ghost predicate HasOut(g: seq<InnerMarking>, ab: Alphabet, SCC: seq<nat>) {
    exists m, i :: m in SCC && m < |g| && 0 <= i < |g[m].labels| && i < |g[m].successors| && Leaves(g, ab, SCC, m, i)
  }

  ghost predicate HasFinal(g: seq<InnerMarking>, SCC: seq<nat>) {
    exists m :: m in SCC && m < |g| && g[m].isFinal
  }

  /** Whether a label leads out of the component. */
  method FindOutLabel(g: seq<InnerMarking>, ab: Alphabet, SCC: seq<nat>) returns (found: bool)
    requires WellFormed(g) && forall m :: m in SCC ==> m < |g|
    ensures found <==> HasOut(g, ab, SCC)
  {
    found := false;
    for k := 0 to |SCC|
      invariant found <==> exists m, i ::
                m in SCC[..k] && m < |g| && 0 <= i < |g[m].labels| && i < |g[m].successors| && Leaves(g, ab, SCC, m, i)
    {
      var m := SCC[k];
      assert m in SCC;
      ghost var before := found;
      var i := 0;
      var here := false;
      while i < |g[m].successors| && !here
        invariant 0 <= i <= |g[m].successors|
        invariant found <==> before || here
        invariant here <==> exists j :: 0 <= j < i && Leaves(g, ab, SCC, m, j)
      {
        if ab.Receiving(g[m].labels[i]) {
          found, here := true, true;
        } else if g[m].labels[i] == TAU {
          var inSCC := Contains(SCC, g[m].successors[i]);
          if !inSCC {
            found, here := true, true;
          }
        }
        assert here <==> Leaves(g, ab, SCC, m, i);
        i := i + 1;
      }
      assert SCC[..k + 1] == SCC[..k] + [m];
    }
    assert SCC[..|SCC|] == SCC;
  }

  method Contains(SCC: seq<nat>, m: nat) returns (found: bool)
    ensures found <==> m in SCC
  {
    found := false;
    for k := 0 to |SCC|
      invariant m !in SCC[..k]
    {
      if SCC[k] == m {
        return true;
      }
    }
  }

  method FindFinal(g: seq<InnerMarking>, SCC: seq<nat>) returns (found: bool)
    requires forall m :: m in SCC ==> m < |g|
    ensures found <==> HasFinal(g, SCC)
  {
    found := false;
    for k := 0 to |SCC|
      invariant forall m :: m in SCC[..k] ==> m < |g| && !g[m].isFinal
    {
      assert SCC[k] in SCC;
      if g[SCC[k]].isFinal {
        return true;
      }
      assert SCC[..k + 1] == SCC[..k] + [SCC[k]];
    }
    assert SCC[..|SCC|] == SCC;
  }

  /** The lambda value of a node with the given components. */
  method AssignLambda(g: seq<InnerMarking>, ab: Alphabet, SCCs: seq<seq<nat>>, ghost V: set<nat>) returns (lambda: nat)
    requires WellFormed(g) && forall m :: m in V ==> m < |g|
    requires Decomposition(TauSteps(g), V, SCCs)
    ensures lambda == Lambda(g, ab, V)
  {
    hide Decomposition, HasOut, HasFinal, TauSteps, Lambda;
    lambda := 3;
    for k := 0 to |SCCs|
      invariant lambda == 2 || lambda == 3
      invariant lambda == 2 <==> exists j :: 0 <= j < k && !HasOut(g, ab, SCCs[j])
      invariant forall j :: 0 <= j < k && !HasOut(g, ab, SCCs[j]) ==> HasFinal(g, SCCs[j])
    {
      ComponentInside(g, V, SCCs, k);
      var foundOutlabel := FindOutLabel(g, ab, SCCs[k]);
      if !foundOutlabel {
        lambda := 2;
        var foundFinal := FindFinal(g, SCCs[k]);
        if !foundFinal {
          DeadComponent(g, ab, V, SCCs, k);
          return 1;
        }
      }
    }
    ScanResult(g, ab, V, SCCs);
  }

  // ---------- the scan computes the meaning ----------

  lemma ComponentInside(g: seq<InnerMarking>, V: set<nat>, SCCs: seq<seq<nat>>, k: nat)
    requires Decomposition(TauSteps(g), V, SCCs) && k < |SCCs|
    ensures forall m :: m in SCCs[k] ==> m in V
    ensures SCCs[k] != []
  {
    hide Reach, Ordered, Disjoint, Ascending, TauSteps;
    var sets := SetsOf(SCCs);
    assert sets[k] != {};
    forall m | m in SCCs[k] ensures m in V { InCompsAt(sets, k, |sets|, m); }
  }

  lemma BottomClosed(g: seq<InnerMarking>, ab: Alphabet, SCC: seq<nat>)
    requires !HasOut(g, ab, SCC)
    ensures Closed(TauSteps(g), SetOf(SCC))
    ensures forall m :: m in SCC ==> !Receives(g, ab, m) || |g[m].labels| != |g[m].successors|
  {
    forall x, y | x in SetOf(SCC) && (x, y) in TauSteps(g) ensures y in SetOf(SCC) {
      var i :| 0 <= i < |g[x].labels| && i < |g[x].successors| && g[x].labels[i] == TAU && g[x].successors[i] == y;
      assert !Leaves(g, ab, SCC, x, i);
    }
    forall m | m in SCC && Receives(g, ab, m) && |g[m].labels| == |g[m].successors| ensures false {
      var i :| 0 <= i < |g[m].labels| && ab.Receiving(g[m].labels[i]);
      assert Leaves(g, ab, SCC, m, i);
    }
  }

  /** A component that nothing leaves makes each of its markings a stop. */
  lemma BottomStops(g: seq<InnerMarking>, ab: Alphabet, SCC: seq<nat>, m: nat)
    requires WellFormed(g) && m in SCC && !HasOut(g, ab, SCC)
    ensures Stop(g, ab, m)
    ensures !HasFinal(g, SCC) ==> DeadStop(g, ab, m)
  {
    hide Reach, TauSteps, Receives, HasOut;
    BottomClosed(g, ab, SCC);
    forall m': nat | m' < |g| && Reach(TauSteps(g), m, m') ensures m' in SCC {
      ReachStaysInClosed(TauSteps(g), SetOf(SCC), m, m');
    }
  }

  lemma DeadComponent(g: seq<InnerMarking>, ab: Alphabet, V: set<nat>, SCCs: seq<seq<nat>>, k: nat)
    requires WellFormed(g) && Decomposition(TauSteps(g), V, SCCs) && k < |SCCs|
    requires !HasOut(g, ab, SCCs[k]) && !HasFinal(g, SCCs[k])
    ensures Lambda(g, ab, V) == 1
  {
    hide Stop, DeadStop, TauSteps, Decomposition, HasOut, HasFinal;
    ComponentInside(g, V, SCCs, k);
    BottomStops(g, ab, SCCs[k], SCCs[k][0]);
  }

  /** Every marking reaches a component that no tau-step leaves. */
  lemma BottomExists(g: seq<InnerMarking>, V: set<nat>, SCCs: seq<seq<nat>>, m: nat) returns (k: nat)
    requires Decomposition(TauSteps(g), V, SCCs) && m in V
    ensures k < |SCCs| && SCCs[k] != []
    ensures forall x :: x in SCCs[k] ==> Reach(TauSteps(g), m, x)
    ensures forall x, y :: x in SCCs[k] && (x, y) in TauSteps(g) ==> y in SCCs[k]
  {
    hide Reach, Ascending, Disjoint, TauSteps;
    var E := TauSteps(g);
    var sets := SetsOf(SCCs);
    ReachRefl(E, m);
    assert InComps(sets, |sets|, m);
    var i: nat, x :| i < |sets| && x in sets[i] && Reach(E, m, x);
    k := i;
    var r := x;
    while exists j: nat, y :: j < k && y in sets[j] && Reach(E, m, y)
      invariant k < |sets| && r in sets[k] && Reach(E, m, r)
      decreases k
    {
      var j: nat, y :| j < k && y in sets[j] && Reach(E, m, y);
      k, r := j, y;
    }
    BottomAt(E, sets, m, k, r);
  }

  lemma BottomAt(E: set<(nat, nat)>, sets: seq<set<nat>>, m: nat, k: nat, r: nat)
    requires Ordered(E, sets) && k < |sets| && IsComponent(E, sets[k])
    requires r in sets[k] && Reach(E, m, r)
    requires !exists j: nat, y :: j < k && y in sets[j] && Reach(E, m, y)
    ensures forall x :: x in sets[k] ==> Reach(E, m, x)
    ensures forall x, y :: x in sets[k] && (x, y) in E ==> y in sets[k]
  {
    hide Reach, Ordered;
    forall x | x in sets[k] ensures Reach(E, m, x) { ReachTrans(E, m, r, x); }
    forall x, y | x in sets[k] && (x, y) in E ensures y in sets[k] {
      ReachEdge(E, x, y);
      ReachTrans(E, m, x, y);
      OrderedEdge(E, sets, k, x, y);
      var j :| 0 <= j < k + 1 && y in sets[j];
    }
  }

  lemma OrderedEdge(E: set<(nat, nat)>, sets: seq<set<nat>>, k: nat, x: nat, y: nat)
    requires Ordered(E, sets) && k < |sets| && x in sets[k] && (x, y) in E
    ensures InComps(sets, k + 1, y)
  {
  }

  /** The bottom component below a stop is found by the scan. */
  lemma StopHasBottom(g: seq<InnerMarking>, ab: Alphabet, V: set<nat>, SCCs: seq<seq<nat>>, m: nat) returns (k: nat)
    requires WellFormed(g) && Decomposition(TauSteps(g), V, SCCs) && m in V
    requires forall x :: x in V ==> x < |g|
    requires Stop(g, ab, m)
    ensures k < |SCCs| && !HasOut(g, ab, SCCs[k])
    ensures DeadStop(g, ab, m) ==> !HasFinal(g, SCCs[k])
  {
    hide Reach, TauSteps, Decomposition;
    k := BottomExists(g, V, SCCs, m);
    ComponentInside(g, V, SCCs, k);
    var SCC := SCCs[k];
    forall x, i | x in SCC && x < |g| && 0 <= i < |g[x].labels| && i < |g[x].successors|
      ensures !Leaves(g, ab, SCC, x, i) {
      if g[x].labels[i] == TAU { TauNeighbour(g, x, i); }
    }
  }

  lemma ScanResult(g: seq<InnerMarking>, ab: Alphabet, V: set<nat>, SCCs: seq<seq<nat>>)
    requires WellFormed(g) && Decomposition(TauSteps(g), V, SCCs)
    requires forall x :: x in V ==> x < |g|
    requires forall j :: 0 <= j < |SCCs| && !HasOut(g, ab, SCCs[j]) ==> HasFinal(g, SCCs[j])
    ensures Lambda(g, ab, V) == if exists j :: 0 <= j < |SCCs| && !HasOut(g, ab, SCCs[j]) then 2 else 3
  {
    hide Stop, DeadStop, TauSteps, Decomposition, HasOut, HasFinal;
    forall m | m in V ensures !DeadStop(g, ab, m) {
      if DeadStop(g, ab, m) {
        DeadIsStop(g, ab, m);
        var k := StopHasBottom(g, ab, V, SCCs, m);
      }
    }
    if j: nat :| j < |SCCs| && !HasOut(g, ab, SCCs[j]) {
      ComponentInside(g, V, SCCs, j);
      BottomStops(g, ab, SCCs[j], SCCs[j][0]);
      assert Lambda(g, ab, V) == 2;
    } else {
      forall m | m in V ensures !Stop(g, ab, m) {
        if Stop(g, ab, m) {
          var k := StopHasBottom(g, ab, V, SCCs, m);
        }
      }
    }
  }

  lemma DeadIsStop(g: seq<InnerMarking>, ab: Alphabet, m: nat)
    requires DeadStop(g, ab, m)
    ensures Stop(g, ab, m)
  {
    hide Reach, TauSteps, Receives;
  }
}
