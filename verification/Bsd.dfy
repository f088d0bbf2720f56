/** The BSD automaton: a subset construction over the tau-closures of a marking graph. */
module Bsd {
  import opened Automata
  import opened Components
  import opened Counting
  import opened Language
  import opened Lambdas
  import opened Lists
  import opened Markings
  import opened Merging
  import opened Reachability
  import opened TauClosures

  class BSDNode {
    var isU: bool
    var list: seq<nat>
    var SCCs: seq<seq<nat>>
    var successors: map<nat, BSDNode>
    var predecessors: seq<(nat, BSDNode)>
    var Ucount: nat
    var lambda: nat

    constructor ()
      ensures successors == map[] && predecessors == [] && SCCs == []
    {
      SCCs := [];
      successors := map[];
      predecessors := [];
    }

    ghost function Value(): Val<BSDNode>
      reads this
    {
      Val(isU, list, successors, predecessors, Ucount, lambda)
    }
  }

  ghost function Values(nodes: set<BSDNode>): map<BSDNode, Val<BSDNode>>
    reads nodes
  {
    map n | n in nodes :: n.Value()
  }

  /** The automaton that consists of the given nodes. */
  ghost function Whole(inner: seq<BSDNode>, U: BSDNode, empty: BSDNode): Automaton<BSDNode>
    reads SetOf(inner) + {U, empty}
  {
    Automaton(inner, U, empty, Values(SetOf(inner) + {U, empty}))
  }

  /** Node n has a successor for every visible label. */
  ghost predicate HasAll(ab: Alphabet, n: BSDNode)
    reads n
  {
    forall l :: l in n.successors <==> ab.Visible(l)
  }

  function Flatten(lists: seq<seq<nat>>): seq<nat> {
    if lists == [] then [] else Flatten(lists[..|lists| - 1]) + lists[|lists| - 1]
  }

  class BSD {
    const markings: seq<InnerMarking>
    const labels: Alphabet
    const closure: TauClosure
    var graph: seq<BSDNode>
    var U: BSDNode?
    var emptyset: BSDNode?

    constructor (markings: seq<InnerMarking>, labels: Alphabet)
      ensures this.markings == markings && this.labels == labels && fresh(closure) && closure.markings == markings
    {
      this.markings := markings;
      this.labels := labels;
      closure := new TauClosure(markings);
    }

    ghost predicate Valid()
      reads this
    {
      && WellFormed(markings) && |markings| > 0
      && closure.markings == markings
      && U != null && emptyset != null
    }

    ghost function NodeSet(): set<BSDNode>
      reads this
      requires U != null && emptyset != null
    {
      SetOf(graph) + {U, emptyset}
    }

    /** The current nodes as a value. */
    ghost function Abstract(): Automaton<BSDNode>
      reads this
      requires U != null && emptyset != null
      reads NodeSet()
    {
      Whole(graph, U, emptyset)
    }

    /** The node of the graph with the given marking list, if there is one. */
    method FindNode(list: seq<nat>) returns (p: BSDNode?)
      ensures p == null ==> forall n :: n in graph ==> n.list != list
      ensures p != null ==> p in graph && p.list == list
    {
      p := null;
      for i := 0 to |graph|
        invariant p == null ==> forall n :: n in graph[..i] ==> n.list != list
        invariant p != null ==> p in graph && p.list == list
      {
        if |list| == |graph[i].list| {
          var equal := CheckEquality(list, graph[i].list);
          if equal {
            p := graph[i];
          }
        }
        assert graph[..i + 1] == graph[..i] + [graph[i]];
      }
      assert graph[..|graph|] == graph;
    }

    /** With the flag set, a node holds the components of its markings; otherwise none. */
    ghost predicate Stored(ogFlag: bool, n: BSDNode)
      reads n`list, n`SCCs
    {
      if ogFlag then Decomposition(TauSteps(markings), SetOf(n.list), n.SCCs) else n.SCCs == []
    }

    ghost predicate AllStored(ogFlag: bool)
      reads this`graph, graph`list, graph`SCCs
    {
      forall n :: n in graph ==> Stored(ogFlag, n)
    }

    /** The node for a set of components: an existing one, or a new one. */
    method Setup(SCCs: seq<seq<nat>>, ogFlag: bool, ghost V: set<nat>) returns (p: BSDNode)
      requires Valid() && Structure(markings, labels, Abstract())
      requires Decomposition(TauSteps(markings), V, SCCs) && TauClosed(markings, V)
      modifies this`graph
      ensures Valid() && Structure(markings, labels, Abstract())
      ensures p in graph && SetOf(p.list) == V
      ensures graph == old(graph) || (fresh(p) && graph == old(graph) + [p] && p.successors == map[]
                                      && Stored(ogFlag, p))
    {
      hide Structure, Decomposition, TauClosed, StateOK, Lambda;
      var list := Flatten(SCCs);
      FlattenCorrect(TauSteps(markings), V, SCCs);
      SortCorrect(list);
      list := Sort(list);
      var found := FindNode(list);
      if found != null {
        return found;
      }
      p := MakeNode(list, SCCs, ogFlag, V);
      AppendNode(p);
    }

    /** A new node object for the markings V; it is not yet in the graph. */
    method MakeNode(list: seq<nat>, SCCs: seq<seq<nat>>, ogFlag: bool, ghost V: set<nat>) returns (p: BSDNode)
      requires WellFormed(markings) && Ascending(list) && SetOf(list) == V
      requires Decomposition(TauSteps(markings), V, SCCs) && TauClosed(markings, V)
      ensures fresh(p) && p.list == list && p.successors == map[] && p.predecessors == []
      ensures StateOK(markings, labels, p.Value()) && Stored(ogFlag, p)
    {
      hide Decomposition, TauClosed, StateOK, Lambda, Ascending, SetOf;
      p := new BSDNode();
      p.list := list;
      p.isU := false;
      p.Ucount := 0;
      ClosedInside(markings, V);
      p.lambda := AssignLambda(markings, labels, SCCs, V);
      if ogFlag {
        p.SCCs := SCCs;
      }
      NewState(markings, labels, p.Value());
    }

    method AppendNode(p: BSDNode)
      requires Valid() && Structure(markings, labels, Abstract())
      requires p !in NodeSet() && StateOK(markings, labels, p.Value()) && p.successors == map[] && p.predecessors == []
      requires forall n :: n in graph ==> n.list != p.list
      modifies this`graph
      ensures Valid() && Structure(markings, labels, Abstract())
      ensures graph == old(graph) + [p]
    {
      hide Structure, StateOK;
      ghost var A := Abstract();
      assert forall m :: m in A.inner && m in A.vals ==> A.vals[m].list != p.list;
      AddNodeOK(markings, labels, A, p, p.Value());
      graph := graph + [p];
      assert NodeSet() == A.vals.Keys + {p};
      assert Abstract().vals == A.vals[p := p.Value()];
    }

    /** The successor along the first edge with the given label. */
    method FindLabel(m: nat, lab: nat) returns (r: Option<nat>)
      requires WellFormed(markings) && m < |markings|
      ensures r == FirstSuccessor(markings[m], lab, 0)
    {
      var i := 0;
      while i < |markings[m].successors|
        invariant 0 <= i <= |markings[m].successors|
        invariant FirstSuccessor(markings[m], lab, 0) == FirstSuccessor(markings[m], lab, i)
      {
        if markings[m].labels[i] == lab {
          return Some(markings[m].successors[i]);
        }
        i := i + 1;
      }
      return None;
    }

    /** The components of everything weakly reached from a marking list by one
        step with the label, or None if the bound is broken on the way. */
    method StepComponents(list: seq<nat>, lab: nat) returns (result: Option<seq<seq<nat>>>)
      requires WellFormed(markings) && closure.markings == markings && lab != TAU
      requires forall m :: m in list ==> m < |markings|
      modifies closure
      ensures result.None? <==> AnyBad(markings, Targets(markings, SetOf(list), lab))
      ensures result.Some? ==>
                Decomposition(TauSteps(markings), ClosureOf(markings, Targets(markings, SetOf(list), lab)),
                              result.value)
    {
      hide AnyBad, Decomposition, Targets, ClosureOf, Closure, BadReachable, SetOf, TauSteps;
      var resultlist: seq<seq<nat>> := [];
      NoTargets(markings, lab);
      for k := 0 to |list|
        invariant !AnyBad(markings, Targets(markings, SetOf(list[..k]), lab))
        invariant Decomposition(TauSteps(markings), ClosureOf(markings, Targets(markings, SetOf(list[..k]), lab)),
                                resultlist)
      {
        assert list[k] in list;
        var target := FindLabel(list[k], lab);
        NextTargets(markings, list, k, lab);
        if target.Some? {
          FirstInside(markings, list[k], lab);
          var SCCs := closure.ComputeClosureTarjan(target.value);
          BadTarget(markings, list, lab, k);
          if SCCs.None? {
            return None;
          }
          MergeDecompositions(TauSteps(markings), ClosureOf(markings, Targets(markings, SetOf(list[..k]), lab)),
                              resultlist,
                              Closure(markings, target.value), SCCs.value);
          resultlist := MergeSCCsWithoutDuplicates(resultlist, SCCs.value);
        }
      }
      assert list[..|list|] == list;
      return Some(resultlist);
    }

    /** Records the edge from node to t with the label, on both sides. */
    method Connect(node: BSDNode, lab: nat, t: BSDNode)
      requires Valid() && Structure(markings, labels, Abstract())
      requires node in graph && lab !in node.successors
      requires Leads(markings, labels, Abstract(), node, lab, t)
      modifies node`successors, t`predecessors
      ensures Valid() && Structure(markings, labels, Abstract())
      ensures node.successors == old(node.successors)[lab := t]
    {
      hide Structure, Leads, WithSuccessor, WithPredecessor;
      ghost var A := Abstract();
      LeadsInside(markings, labels, A, node, lab, t);
      AddEdgeOK(markings, labels, A, node, lab, t);
      SetSuccessor(node, lab, t);
      AddPredecessor(node, lab, t);
    }

    method SetSuccessor(node: BSDNode, lab: nat, t: BSDNode)
      requires Valid() && node in NodeSet()
      modifies node`successors
      ensures Values(NodeSet()) == WithSuccessor(old(Values(NodeSet())), node, lab, t)
      ensures node.successors == old(node.successors)[lab := t]
    {
      node.successors := node.successors[lab := t];
    }

    method AddPredecessor(node: BSDNode, lab: nat, t: BSDNode)
      requires Valid() && t in NodeSet()
      modifies t`predecessors
      ensures Values(NodeSet()) == WithPredecessor(old(Values(NodeSet())), node, lab, t)
    {
      t.predecessors := t.predecessors + [(lab, node)];
    }

    /** Creates the U node and the empty node, with their loops. */
    method CreateEnds()
      requires WellFormed(markings) && |markings| > 0 && closure.markings == markings
      modifies this`graph, this`U, this`emptyset
      ensures Valid() && graph == [] && fresh(U) && fresh(emptyset)
      ensures Structure(markings, labels, Abstract()) && U.SCCs == emptyset.SCCs == []
    {
      graph := [];
      var u := new BSDNode();
      u.isU := true;
      u.lambda := 0;
      var e := new BSDNode();
      e.isU := false;
      e.lambda := 4;
      for id := 2 to labels.Events() + 1
        invariant graph == [] && u.SCCs == e.SCCs == []
        invariant u.predecessors == e.predecessors == [] && u.isU && !e.isU && u.lambda == 0 && e.lambda == 4
        invariant forall l :: l in u.successors <==> 2 <= l < id
        invariant forall l :: l in e.successors <==> 2 <= l < id
        invariant forall l :: l in u.successors ==> u.successors[l] == u
        invariant forall l :: l in e.successors ==> e.successors[l] == e
      {
        u.successors := u.successors[id := u];
        e.successors := e.successors[id := e];
      }
      U := u;
      emptyset := e;
      NoInner(markings, labels, Abstract());
    }

    /** Computes the successor of node for the label and records it. */
    method ComputeSuccessor(node: BSDNode, lab: nat, ogFlag: bool)
      requires AllStored(ogFlag)
      requires Valid() && Structure(markings, labels, Abstract())
      requires node in graph && labels.Visible(lab) && lab !in node.successors
      modifies this`graph, closure, NodeSet()`successors, NodeSet()`predecessors
      ensures AllStored(ogFlag)
      ensures Valid() && Structure(markings, labels, Abstract())
      ensures old(graph) <= graph && U == old(U) && emptyset == old(emptyset)
      ensures lab in node.successors && node.successors == old(node.successors)[lab := node.successors[lab]]
      ensures forall n :: n in old(graph) && n != node ==> n.successors == old(n.successors)
      ensures forall n :: n in graph && n !in old(graph) ==> fresh(n) && n.successors == map[]
    {
      hide Structure, Leads, Values;
      var t := FindTarget(node, lab, ogFlag);
      Connect(node, lab, t);
    }

    /** The node that the label leads to: U, the empty node, or one for the step's markings. */
    method FindTarget(node: BSDNode, lab: nat, ogFlag: bool) returns (t: BSDNode)
      requires AllStored(ogFlag)
      requires Valid() && Structure(markings, labels, Abstract())
      requires node in graph && labels.Visible(lab)
      modifies this`graph, closure
      ensures AllStored(ogFlag)
      ensures Valid() && Structure(markings, labels, Abstract()) && Leads(markings, labels, Abstract(), node, lab, t)
      ensures old(graph) <= graph && U == old(U) && emptyset == old(emptyset)
      ensures forall n :: n in graph && n !in old(graph) ==> fresh(n) && n.successors == map[]
      ensures t in old(NodeSet()) || fresh(t)
    {
      hide Structure, Leads, TauClosed, Decomposition, Targets, ClosureOf, AnyBad, TauSteps;
      ghost var A := Abstract();
      NodeState(markings, labels, A, node);
      ghost var T := Targets(markings, SetOf(node.list), lab);
      var step := StepComponents(node.list, lab);
      assert Abstract() == A;
      if step.None? {
        t := U;
      } else if step.value == [] {
        t := emptyset;
        StepEmpty(markings, SetOf(node.list), lab, step.value);
      } else {
        StepClosed(markings, SetOf(node.list), lab, step.value);
        t := Setup(step.value, ogFlag, ClosureOf(markings, T));
        NodeState(markings, labels, Abstract(), t);
        NodeState(markings, labels, Abstract(), node);
      }
      EndPoints(markings, labels, Abstract());
      LeadsTo(markings, labels, Abstract(), node, lab, t);
    }

    /** Builds the automaton of the whole marking graph. */
    method ComputeBSD(ogFlag: bool) returns (ghost inner: seq<BSDNode>)
      requires WellFormed(markings) && |markings| > 0 && closure.markings == markings
      modifies this, closure
      ensures Valid()
      ensures BadReachable(markings, 0) ==> graph == [U] && inner == []
      ensures !BadReachable(markings, 0) ==> graph == inner + [U, emptyset] && inner != []
      ensures IsBSD(markings, labels, Whole(inner, U, emptyset))
      ensures |inner| <= Pow(2, |markings|)
      ensures U.SCCs == emptyset.SCCs == [] && U.isU && !emptyset.isU && U.lambda == 0 && emptyset.lambda == 4
      ensures forall n :: n in inner ==> !n.isU && n.Ucount == 0 && n.lambda == Lambda(markings, labels, SetOf(n.list))
      ensures forall n :: n in inner ==>
                if ogFlag then Decomposition(TauSteps(markings), SetOf(n.list), n.SCCs) else n.SCCs == []
    {
      hide IsBSD, Structure, BadReachable, Closure, Decomposition, TauSteps, TauClosed, Values;
      CreateEnds();
      var SCCs := closure.ComputeClosureTarjan(0);
      if SCCs.None? {
        inner := [];
        OnlyU(markings, labels, Abstract());
        StoredValues(markings, labels, inner, U, emptyset);
        graph := graph + [U];
        return;
      }
      BuildInner(SCCs.value, ogFlag);
      inner := graph;
      StoredValues(markings, labels, inner, U, emptyset);
      graph := graph + [U];
      graph := graph + [emptyset];
    }

    /** Builds the nodes other than U and the empty node. */
    method BuildInner(SCCs: seq<seq<nat>>, ogFlag: bool)
      requires Valid() && Structure(markings, labels, Abstract())
      requires graph == [] && !BadReachable(markings, 0)
      requires Decomposition(TauSteps(markings), Closure(markings, 0), SCCs)
      modifies this`graph, closure, NodeSet()`successors, NodeSet()`predecessors
      ensures AllStored(ogFlag)
      ensures Valid() && IsBSD(markings, labels, Abstract())
      ensures U == old(U) && emptyset == old(emptyset) && graph != [] && |graph| <= Pow(2, |markings|)
    {
      hide IsBSD, Structure, BadReachable, Closure, Decomposition, TauSteps, TauClosed, Values, HasAll;
      InitialClosed(markings);
      var first := Setup(SCCs, ogFlag, Closure(markings, 0));
      ghost var start := first.list;
      Worklist(ogFlag);
      NodeBound(markings, labels, Abstract());
      AllComplete();
      assert first == graph[0];
      InitialStarts(markings, labels, Abstract());
    }

    lemma AllComplete()
      requires Valid() && forall n :: n in graph ==> HasAll(labels, n)
      ensures Complete(labels, Abstract())
      ensures graph != [] ==> graph[0] in Abstract().vals && Abstract().vals[graph[0]].list == graph[0].list
    {
    }

    /** The first k nodes have all their successors, the others none. */
    ghost predicate Progress(k: nat)
      reads this, graph
    {
      && (forall i :: 0 <= i < k && i < |graph| ==> HasAll(labels, graph[i]))
      && (forall i :: k <= i < |graph| ==> graph[i].successors == map[])
    }

    /** Expands the nodes in the order of their creation until none is left. */
    method Worklist(ogFlag: bool)
      requires AllStored(ogFlag)
      requires Valid() && Structure(markings, labels, Abstract())
      requires forall n :: n in graph ==> n.successors == map[]
      modifies this`graph, closure, NodeSet()`successors, NodeSet()`predecessors
      ensures AllStored(ogFlag)
      ensures Valid() && Structure(markings, labels, Abstract())
      ensures old(graph) <= graph && U == old(U) && emptyset == old(emptyset)
      ensures forall n :: n in graph ==> HasAll(labels, n)
    {
      hide Structure, Values, HasAll;
      var it := 0;
      NodeBound(markings, labels, Abstract());
      while it < |graph|
        invariant Valid() && Structure(markings, labels, Abstract())
        invariant old(graph) <= graph && U == old(U) && emptyset == old(emptyset)
        invariant forall n :: n in graph ==> n in old(graph) || fresh(n)
        invariant AllStored(ogFlag)
        invariant it <= |graph| <= Pow(2, |markings|)
        invariant Progress(it)
        decreases Pow(2, |markings|) - it
      {
        ExpandNext(it, ogFlag);
        NodeBound(markings, labels, Abstract());
        it := it + 1;
      }
    }

    method ExpandNext(k: nat, ogFlag: bool)
      requires AllStored(ogFlag)
      requires Valid() && Structure(markings, labels, Abstract())
      requires k < |graph| && Progress(k)
      modifies this`graph, closure, NodeSet()`successors, NodeSet()`predecessors
      ensures AllStored(ogFlag)
      ensures Valid() && Structure(markings, labels, Abstract())
      ensures old(graph) <= graph && U == old(U) && emptyset == old(emptyset)
      ensures Progress(k + 1)
      ensures forall n :: n in graph && n !in old(graph) ==> fresh(n)
    {
      hide Structure, Values;
      DistinctInner(markings, labels, Abstract());
      ghost var before := graph;
      ExpandNode(k, ogFlag);
      DistinctInner(markings, labels, Abstract());
      forall i | 0 <= i < k + 1 && i < |graph| ensures HasAll(labels, graph[i]) {
        assert graph[i] == before[i] && before[i] in before;
      }
      forall i | k + 1 <= i < |graph| ensures graph[i].successors == map[] {
        if i < |before| {
          assert graph[i] == before[i] && before[i] in before;
        } else {
          assert graph[i] !in before by {
            assert forall j :: 0 <= j < |before| ==> graph[j] == before[j];
          }
        }
      }
    }

    /** Computes all successors of the node at position k. */
    method ExpandNode(k: nat, ogFlag: bool)
      requires AllStored(ogFlag)
      requires Valid() && Structure(markings, labels, Abstract())
      requires k < |graph| && graph[k].successors == map[]
      modifies this`graph, closure, NodeSet()`successors, NodeSet()`predecessors
      ensures AllStored(ogFlag)
      ensures Valid() && Structure(markings, labels, Abstract())
      ensures old(graph) <= graph && U == old(U) && emptyset == old(emptyset)
      ensures HasAll(labels, graph[k])
      ensures forall n :: n in old(graph) && n != graph[k] ==> n.successors == old(n.successors)
      ensures forall n :: n in graph && n !in old(graph) ==> fresh(n) && n.successors == map[]
    {
      hide Structure;
      var node := graph[k];
      for id := 2 to labels.Events() + 1
        invariant AllStored(ogFlag)
        invariant Valid() && Structure(markings, labels, Abstract())
        invariant old(graph) <= graph && U == old(U) && emptyset == old(emptyset)
        invariant forall l :: l in node.successors <==> 2 <= l < id
        invariant forall n :: n in old(graph) && n != node ==> n.successors == old(n.successors)
        invariant forall n :: n in graph && n !in old(graph) ==> fresh(n) && n.successors == map[]
      {
        ComputeSuccessor(node, id, ogFlag);
      }
    }
  }

  /** What the nodes of a BSD automaton store besides their edges. */
  lemma StoredValues(g: seq<InnerMarking>, ab: Alphabet, inner: seq<BSDNode>, U: BSDNode, empty: BSDNode)
    requires WellFormed(g) && IsBSD(g, ab, Whole(inner, U, empty))
    ensures U.isU && !empty.isU && U.lambda == 0 && empty.lambda == 4
    ensures forall n :: n in inner ==> !n.isU && n.Ucount == 0 && n.lambda == Lambda(g, ab, SetOf(n.list))
  {
    hide NoTwins, EdgesOK, PredsOK, Complete, StartsAt, TauClosed, Lambda, Ascending;
    var A := Whole(inner, U, empty);
    forall n | n in inner ensures !n.isU && n.Ucount == 0 && n.lambda == Lambda(g, ab, SetOf(n.list)) {
      assert n in SetOf(inner);
      assert StateOK(g, ab, A.vals[n]);
    }
  }

  lemma FirstInside(g: seq<InnerMarking>, m: nat, l: nat)
    requires WellFormed(g) && m < |g|
    ensures FirstSuccessor(g[m], l, 0).Some? ==> FirstSuccessor(g[m], l, 0).value < |g|
  {
  }

  lemma NoTargets(g: seq<InnerMarking>, l: nat)
    requires WellFormed(g)
    ensures forall list: seq<nat> :: !AnyBad(g, Targets(g, SetOf(list[..0]), l))
    ensures forall list: seq<nat> :: Decomposition(TauSteps(g), ClosureOf(g, Targets(g, SetOf(list[..0]), l)), [])
  {
    forall list: seq<nat> ensures Targets(g, SetOf(list[..0]), l) == {} {
      assert SetOf(list[..0]) == {};
    }
    assert ClosureOf(g, {}) == {};
    assert SetsOf([]) == [];
  }

  /** One more marking of the list: what its step adds. */
  lemma NextTargets(g: seq<InnerMarking>, list: seq<nat>, k: nat, l: nat)
    requires WellFormed(g) && l != TAU && k < |list| && list[k] < |g|
    ensures var T, T' := Targets(g, SetOf(list[..k]), l), Targets(g, SetOf(list[..k + 1]), l);
            match FirstSuccessor(g[list[k]], l, 0)
            case None => T' == T
            case Some(t) =>
              (T' == T + {t} && ClosureOf(g, T') == ClosureOf(g, T) + Closure(g, t)
               && (AnyBad(g, T') <==> AnyBad(g, T) || BadReachable(g, t)))
  {
    hide Reach, TauSteps, BadReachable;
    FirstInside(g, list[k], l);
    var T, T' := Targets(g, SetOf(list[..k]), l), Targets(g, SetOf(list[..k + 1]), l);
    var f := FirstSuccessor(g[list[k]], l, 0);
    forall t ensures t in T' <==> t in T || f == Some(t) {
      if t in T' {
        var m :| m in SetOf(list[..k + 1]) && Step(g, false, m, l, t);
        if m != list[k] { assert m in SetOf(list[..k]); }
      }
      if f == Some(t) {
        assert list[k] in SetOf(list[..k + 1]);
        assert Step(g, false, list[k], l, t);
      }
      if t in T {
        var m :| m in SetOf(list[..k]) && Step(g, false, m, l, t);
        assert m in SetOf(list[..k + 1]);
      }
    }
  }

  /** A bad closure found early is bad for the whole list. */
  lemma BadTarget(g: seq<InnerMarking>, list: seq<nat>, l: nat, k: nat)
    requires WellFormed(g) && k < |list|
    ensures AnyBad(g, Targets(g, SetOf(list[..k + 1]), l)) ==> AnyBad(g, Targets(g, SetOf(list), l))
  {
    hide BadReachable, Step;
    assert SetOf(list[..k + 1]) <= SetOf(list);
  }

  lemma DistinctInner(g: seq<InnerMarking>, ab: Alphabet, A: Automaton<BSDNode>)
    requires WellFormed(g) && Structure(g, ab, A)
    ensures Distinct(A.inner)
  {
    hide StatesOK, NoTwins, EdgesOK, LoopsOK, PredsOK;
  }

  lemma OnlyU(g: seq<InnerMarking>, ab: Alphabet, A: Automaton<BSDNode>)
    requires WellFormed(g) && Structure(g, ab, A) && A.inner == [] && BadReachable(g, 0)
    ensures IsBSD(g, ab, A)
  {
    hide StatesOK, NoTwins, EdgesOK, LoopsOK, PredsOK, BadReachable;
  }

  lemma InitialStarts(g: seq<InnerMarking>, ab: Alphabet, A: Automaton<BSDNode>)
    requires WellFormed(g) && Structure(g, ab, A) && Complete(ab, A) && A.inner != [] && !BadReachable(g, 0)
    requires A.inner[0] in A.vals && SetOf(A.vals[A.inner[0]].list) == Closure(g, 0)
    ensures IsBSD(g, ab, A)
  {
    hide BadReachable, Closure, TauClosed, Complete, Structure;
    NodeState(g, ab, A, A.inner[0]);
  }

  lemma NoInner(g: seq<InnerMarking>, ab: Alphabet, A: Automaton<BSDNode>)
    requires WellFormed(g) && A.inner == [] && A.U != A.empty && A.vals.Keys == {A.U, A.empty}
    requires LoopsOK(ab, A)
    requires A.vals[A.U].predecessors == [] && A.vals[A.empty].predecessors == []
    ensures Structure(g, ab, A)
  {
  }

  lemma InitialClosed(g: seq<InnerMarking>)
    requires WellFormed(g) && |g| > 0 && !BadReachable(g, 0)
    ensures TauClosed(g, Closure(g, 0))
  {
    hide Reach, TauSteps;
    var E := TauSteps(g);
    ReachRefl(E, 0);
    assert 0 in Closure(g, 0);
    forall x, y | x in Closure(g, 0) && (x, y) in E ensures y in Closure(g, 0) {
      ReachEdge(E, x, y);
      ReachTrans(E, 0, x, y);
      TauInside(g, x, y);
    }
  }

  /** There are at most as many inner nodes as sets of markings. */
  lemma NodeBound<N>(g: seq<InnerMarking>, ab: Alphabet, A: Automaton<N>)
    requires WellFormed(g) && Structure(g, ab, A)
    ensures |A.inner| <= Pow(2, |g|)
  {
    hide EdgesOK, LoopsOK, PredsOK, Closed, Lambda, Ascending;
    var lists := seq(|A.inner|, i requires 0 <= i < |A.inner| => ListOf(A, A.inner[i]));
    forall i | 0 <= i < |lists| ensures Ascending(lists[i]) && (forall x :: x in lists[i] ==> x < |g|) {
      var n := A.inner[i];
      assert n in SetOf(A.inner);
      assert StateOK(g, ab, A.vals[n]);
      assert forall x :: x in lists[i] ==> x in SetOf(lists[i]);
    }
    assert Distinct(lists) by {
      forall i, j | 0 <= i < j < |lists| ensures lists[i] != lists[j] {
        assert A.inner[i] in SetOf(A.inner) && A.inner[j] in SetOf(A.inner);
      }
    }
    ListsBound(lists, |g|);
  }

  ghost function ListOf<N>(A: Automaton<N>, n: N): seq<nat> {
    if n in A.vals then A.vals[n].list else []
  }

  lemma StepEmpty(g: seq<InnerMarking>, S: set<nat>, l: nat, lists: seq<seq<nat>>)
    requires WellFormed(g) && Decomposition(TauSteps(g), ClosureOf(g, Targets(g, S, l)), lists) && lists == []
    ensures Targets(g, S, l) == {}
  {
    hide Reach, Step, ClosureOf, IsComponent;
    NonEmptyClosure(g, Targets(g, S, l));
    assert forall x :: !InComps(SetsOf(lists), 0, x);
  }

  lemma StepClosed(g: seq<InnerMarking>, S: set<nat>, l: nat, lists: seq<seq<nat>>)
    requires WellFormed(g) && Decomposition(TauSteps(g), ClosureOf(g, Targets(g, S, l)), lists) && lists != []
    requires !AnyBad(g, Targets(g, S, l))
    ensures TauClosed(g, ClosureOf(g, Targets(g, S, l))) && Targets(g, S, l) != {}
  {
    hide Reach, Step, TauSteps, Targets;
    var E, T := TauSteps(g), Targets(g, S, l);
    ListInside(E, ClosureOf(g, T), lists, lists[0]);
    assert IsComponent(E, SetsOf(lists)[0]);
    forall x, y | x in ClosureOf(g, T) && (x, y) in E ensures y in ClosureOf(g, T) {
      var t :| t in T && Reach(E, t, x);
      ReachEdge(E, x, y);
      ReachTrans(E, t, x, y);
      TauInside(g, x, y);
    }
  }

  lemma TauInside(g: seq<InnerMarking>, x: nat, y: nat)
    requires (x, y) in TauSteps(g)
    ensures x < |g| && y < |g|
  {
  }

  lemma EndPoints(g: seq<InnerMarking>, ab: Alphabet, A: Automaton<BSDNode>)
    requires WellFormed(g) && Structure(g, ab, A)
    ensures A.U in A.vals && A.empty in A.vals && At(A, A.U) == Broken && At(A, A.empty) == Dead
  {
    hide StatesOK, NoTwins, EdgesOK, PredsOK;
  }

  /** The three kinds of successors. */
  lemma LeadsTo(g: seq<InnerMarking>, ab: Alphabet, A: Automaton<BSDNode>, n: BSDNode, l: nat, t: BSDNode)
    requires WellFormed(g) && ab.Visible(l) && t in A.vals && At(A, n).Marks?
    requires At(A, t) == if AnyBad(g, Targets(g, At(A, n).marks, l)) then Broken
                         else if Targets(g, At(A, n).marks, l) == {} then Dead
                         else Marks(ClosureOf(g, Targets(g, At(A, n).marks, l)))
    ensures Leads(g, ab, A, n, l, t)
  {
    hide AnyBad, Targets, ClosureOf, At;
  }

  lemma NodeState(g: seq<InnerMarking>, ab: Alphabet, A: Automaton<BSDNode>, n: BSDNode)
    requires WellFormed(g) && Structure(g, ab, A) && n in A.inner
    ensures n in A.vals && TauClosed(g, SetOf(A.vals[n].list))
    ensures At(A, n) == Marks(SetOf(A.vals[n].list))
    ensures forall m :: m in A.vals[n].list ==> m < |g|
  {
    hide NoTwins, EdgesOK, LoopsOK, PredsOK, Closed, Ascending, Lambda;
    assert n in SetOf(A.inner);
    assert StateOK(g, ab, A.vals[n]);
    assert forall m :: m in A.vals[n].list ==> m in SetOf(A.vals[n].list);
  }

  lemma ClosedInside(g: seq<InnerMarking>, V: set<nat>)
    requires TauClosed(g, V)
    ensures forall m :: m in V ==> m < |g|
  {
  }

  lemma NewState(g: seq<InnerMarking>, ab: Alphabet, v: Val<BSDNode>)
    requires Ascending(v.list) && TauClosed(g, SetOf(v.list)) && v.lambda == Lambda(g, ab, SetOf(v.list)) && !v.isU
    requires v.Ucount == 0
    ensures StateOK(g, ab, v)
  {
  }

  lemma FlattenCorrect(E: set<(nat, nat)>, V: set<nat>, lists: seq<seq<nat>>)
    requires Decomposition(E, V, lists)
    ensures Distinct(Flatten(lists)) && SetOf(Flatten(lists)) == V
  {
    hide Reach, IsComponent, Ordered;
    FlattenMembers(lists, |lists|);
    FlattenDistinct(lists, |lists|);
    assert lists[..|lists|] == lists;
    UnionIsAll(E, V, lists);
  }

  lemma {:induction false} FlattenMembers(lists: seq<seq<nat>>, k: nat)
    requires k <= |lists|
    ensures SetOf(Flatten(lists[..k])) == UnionOf(SetsOf(lists), k)
  {
    if k > 0 {
      FlattenMembers(lists, k - 1);
      assert lists[..k][..k - 1] == lists[..k - 1];
      assert Flatten(lists[..k]) == Flatten(lists[..k - 1]) + lists[k - 1];
      assert UnionOf(SetsOf(lists), k) == UnionOf(SetsOf(lists), k - 1) + SetOf(lists[k - 1]);
    }
  }

  lemma {:induction false} FlattenDistinct(lists: seq<seq<nat>>, k: nat)
    requires k <= |lists| && Disjoint(SetsOf(lists))
    requires forall i :: 0 <= i < |lists| ==> Ascending(lists[i])
    ensures Distinct(Flatten(lists[..k]))
  {
    if k > 0 {
      FlattenDistinct(lists, k - 1);
      FlattenMembers(lists, k - 1);
      assert lists[..k][..k - 1] == lists[..k - 1];
      var a, b := Flatten(lists[..k - 1]), lists[k - 1];
      forall x | x in a ensures x !in b {
        assert x in UnionOf(SetsOf(lists), k - 1);
        var i :| 0 <= i < k - 1 && x in SetsOf(lists)[i];
        assert SetsOf(lists)[i] !! SetsOf(lists)[k - 1];
        assert x !in SetOf(b);
      }
      DistinctConcat(a, b);
    }
  }

  lemma DistinctConcat(a: seq<nat>, b: seq<nat>)
    requires Distinct(a) && Distinct(b) && forall x :: x in a ==> x !in b
    ensures Distinct(a + b)
  {
    var s := a + b;
    forall i, j | 0 <= i < j < |s| ensures s[i] != s[j] {
      if i < |a| <= j { assert s[i] in a && s[j] in b; }
    }
  }
}
