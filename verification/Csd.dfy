/** The CSD automaton: the BSD automaton with the unavoidable nodes marked as U nodes. */
module Csd {
  import opened Attractors
  import opened Automata
  import opened Bsd
  import opened Components
  import opened Lambdas
  import opened Markings

  /** A has the present edges and lambda values of its nodes. */
  ghost predicate Agrees(A: Automaton<BSDNode>)
    reads A.vals.Keys
  {
    forall n :: n in A.vals ==> n.predecessors == A.vals[n].predecessors && n.lambda == A.vals[n].lambda
  }

  lemma StructureParts(g: seq<InnerMarking>, ab: Alphabet, A: Automaton<BSDNode>)
    requires WellFormed(g) && Structure(g, ab, A)
    ensures PredsOK(A) && A.U !in A.inner && A.U != A.empty && A.empty !in A.inner && A.U in A.vals && A.vals[A.U].isU
    ensures forall n :: n in A.inner ==> n in A.vals && A.vals[n].Ucount == 0 && !A.vals[n].isU
    ensures !A.vals[A.empty].isU
    ensures A.vals.Keys == SetOf(A.inner) + {A.U, A.empty}
  {
    hide PredsOf, NoTwins, EdgesOK, TauClosed, Lambda;
    assert forall n :: n in A.inner ==> n in SetOf(A.inner);
    assert forall n :: n in A.inner ==> StateOK(g, ab, A.vals[n]);
  }

  lemma StructureOf(g: seq<InnerMarking>, ab: Alphabet, A: Automaton<BSDNode>)
    requires WellFormed(g) && IsBSD(g, ab, A)
    ensures Structure(g, ab, A)
  {
    hide Structure;
  }

  /** When the search from U is over, the marks are the attractor. */
  lemma SearchDone(ab: Alphabet, A: Automaton<BSDNode>, s0: Marking<BSDNode>, s: Marking<BSDNode>)
    requires PredsOK(A) && s0.visited == {} && Grown(A, s0, s, {})
    requires SearchOK(ab, A, s, Attractor(ab, A), {})
    requires A.vals.Keys == s.isU.Keys == SetOf(A.inner) + {A.U, A.empty} && A.U != A.empty && A.empty !in A.inner
    ensures forall n :: n in s.isU ==> (s.isU[n] <==> n in Attractor(ab, A))
  {
    hide PredsOK, SearchOK, Grown, Attractor;
    GrownExhausted(A, s0, s);
    SearchExact(ab, A, s);
    AttractorInside(ab, A);
  }

  class CSD {
    const labels: Alphabet
    var visited: map<BSDNode, bool>
    ghost var progress: map<BSDNode, nat>

    constructor (labels: Alphabet)
      ensures this.labels == labels
    {
      this.labels := labels;
    }

    predicate Visited(n: BSDNode)
      reads this
    {
      n in visited && visited[n]
    }

    /** The present state of the search. */
    ghost function Now(A: Automaton<BSDNode>): Marking<BSDNode>
      reads this, A.vals.Keys
    {
      Marking((map n | n in A.vals :: n.isU), (map n | n in A.vals :: n.Ucount), (set n | n in visited && visited[n]),
              progress)
    }

    /** Turns the BSD automaton into the CSD automaton: exactly the nodes of the
        attractor of U become U nodes. */
    method ComputeCSD(U: BSDNode, ghost inner: seq<BSDNode>, ghost empty: BSDNode, ghost g: seq<InnerMarking>)
      requires WellFormed(g) && IsBSD(g, labels, Whole(inner, U, empty))
      modifies this, (SetOf(inner) + {U, empty})`isU, (SetOf(inner) + {U, empty})`Ucount
      ensures forall n :: n in SetOf(inner) + {U, empty} ==>
              (n.isU <==> n in Attractor(labels, old(Whole(inner, U, empty))))
    {
      hide Structure, SearchOK, PredsOK, Attractor, AttrClosed, Grown, SetOf, IsBSD;
      ghost var A := Whole(inner, U, empty);
      assert Agrees(A);
      StructureOf(g, labels, A);
      StructureParts(g, labels, A);
      AttractorClosed(labels, A);
      Reset(A);
      ghost var s0 := Now(A);
      RecursiveCSD(U, A, Attractor(labels, A));
      SearchDone(labels, A, s0, Now(A));
    }

    /** Nothing has been visited yet. */
    method Reset(ghost A: Automaton<BSDNode>)
      requires A.U in A.vals && forall n :: n in A.vals ==> n.isU == A.vals[n].isU && n.Ucount == A.vals[n].Ucount
      requires A.vals[A.U].isU && (A.empty in A.vals ==> !A.vals[A.empty].isU)
      requires forall n :: n in A.inner ==> n in A.vals && A.vals[n].Ucount == 0 && !A.vals[n].isU
      modifies this`visited, this`progress
      ensures Now(A).visited == {} && SearchOK(labels, A, Now(A), Attractor(labels, A), {A.U})
    {
      hide SearchOK, Attractor;
      visited := map[];
      progress := map[];
      NothingHandled(labels, A, Now(A));
    }

    /** Marks node's forced predecessors, and theirs, as U nodes. */
    method RecursiveCSD(node: BSDNode, ghost A: Automaton<BSDNode>, ghost C: set<BSDNode>)
      requires Agrees(A) && PredsOK(A) && AttrClosed(labels, A, C) && A.U !in A.inner && A.empty !in A.inner
      requires node in A.vals && (node in A.inner || node == A.U) && node.isU
      requires SearchOK(labels, A, Now(A), C, {node})
      modifies this`visited, this`progress, A.vals.Keys`isU, A.vals.Keys`Ucount
      ensures SearchOK(labels, A, Now(A), C, {})
      ensures node in Now(A).visited
      ensures Grown(A, old(Now(A)), Now(A), {})
      decreases A.vals.Keys - Now(A).visited, 0
    {
      hide SearchOK, PredsOK, AttrClosed, Grown, Handle;
      ghost var s0 := Now(A);
      if Visited(node) {
        AlreadyVisited(labels, A, s0, C, node);
        GrownSame(A, s0, {});
      } else {
        StartVisit(labels, A, s0, C, node);
        Begin(node, A);
        ghost var s1 := Now(A);
        GrownSame(A, s1, {node});
        for i := 0 to |node.predecessors|
          invariant SearchOK(labels, A, Now(A), C, {})
          invariant node in Now(A).visited && node in progress && progress[node] == i
          invariant Grown(A, s1, Now(A), {node})
        {
          ghost var s := Now(A);
          ProgressKnown(labels, A, s, C, {});
          GrownVisited(A, s1, s, {node});
          HandleEntry(node, i, A, C);
          GrownTrans(A, s1, s, Now(A), {node});
        }
        GrownClose(A, s0, Now(A), node);
      }
    }

    /** Handles one predecessor entry of a visited node. */
    method HandleEntry(node: BSDNode, i: nat, ghost A: Automaton<BSDNode>, ghost C: set<BSDNode>)
      requires Agrees(A) && PredsOK(A) && AttrClosed(labels, A, C) && A.U !in A.inner && A.empty !in A.inner
      requires node in A.vals && node in Now(A).visited && i < |node.predecessors| && node in progress
      requires progress[node] == i
      requires SearchOK(labels, A, Now(A), C, {})
      modifies this`visited, this`progress, A.vals.Keys`isU, A.vals.Keys`Ucount
      ensures SearchOK(labels, A, Now(A), C, {})
      ensures node in Now(A).visited && node in progress && progress[node] == i + 1
      ensures Grown(A, old(Now(A)), Now(A), {node})
      decreases A.vals.Keys - Now(A).visited, 2
    {
      hide SearchOK, PredsOK, AttrClosed, Grown, Handle, Triggers;
      var l, p := node.predecessors[i].0, node.predecessors[i].1;
      ghost var s := Now(A);
      HandleOK(labels, A, s, C, node, l, p);
      HandleGrown(labels, A, s, node, l, p);
      var goOn := Account(node, l, p, A);
      if goOn {
        Nested(p, node, A, C, s);
      }
    }

    /** Accounts for the edge labelled l from p to node; returns whether it forces p. */
    method Account(node: BSDNode, l: nat, p: BSDNode, ghost A: Automaton<BSDNode>) returns (goOn: bool)
      requires Agrees(A) && p in A.vals && node in progress
      modifies this`progress, p`isU, p`Ucount
      ensures Now(A) == Handle(labels, A, old(Now(A)), node, l, p)
      ensures goOn == Triggers(labels, A, old(Now(A)), l, p)
      ensures progress == old(progress)[node := old(progress)[node] + 1]
    {
      hide Advance, Counted, Marked;
      Pass(node, A);
      goOn := false;
      if labels.Sending(l) && p.lambda == 1 {
        CountUp(p, A);
        if p.Ucount == labels.sends {
          Mark(p, A);
          goOn := true;
        }
      } else if labels.Receiving(l) {
        Mark(p, A);
        goOn := true;
      }
    }

    /** The search goes on from the node p that an entry of node has just forced. */
    method Nested(p: BSDNode, ghost node: BSDNode, ghost A: Automaton<BSDNode>, ghost C: set<BSDNode>,
                  ghost s0: Marking<BSDNode>)
      requires Agrees(A) && PredsOK(A) && AttrClosed(labels, A, C) && A.U !in A.inner && A.empty !in A.inner
      requires p in A.vals && p in A.inner && p.isU
      requires SearchOK(labels, A, Now(A), C, {p})
      requires Grown(A, s0, Now(A), {node}) && node in Now(A).visited && node in progress
      modifies this`visited, this`progress, A.vals.Keys`isU, A.vals.Keys`Ucount
      ensures SearchOK(labels, A, Now(A), C, {})
      ensures node in Now(A).visited && node in progress && progress[node] == old(progress)[node]
      ensures Grown(A, s0, Now(A), {node})
      decreases A.vals.Keys - Now(A).visited, 1
    {
      hide SearchOK, PredsOK, AttrClosed, Grown;
      ghost var s := Now(A);
      ProgressKnown(labels, A, s, C, {p});
      RecursiveCSD(p, A, C);
      AfterNested(A, s0, s, Now(A), node);
    }

    method Begin(node: BSDNode, ghost A: Automaton<BSDNode>)
      modifies this`visited, this`progress
      ensures Now(A) == Visiting(old(Now(A)), node)
    {
      visited := visited[node := true];
      progress := progress[node := 0];
    }

    method Pass(ghost node: BSDNode, ghost A: Automaton<BSDNode>)
      requires node in progress
      modifies this`progress
      ensures Now(A) == Advance(old(Now(A)), node)
      ensures progress == old(progress)[node := old(progress)[node] + 1]
    {
      progress := progress[node := progress[node] + 1];
    }

    method CountUp(p: BSDNode, ghost A: Automaton<BSDNode>)
      requires p in A.vals
      modifies p`Ucount
      ensures p.Ucount == old(p.Ucount) + 1
      ensures Now(A) == Counted(old(Now(A)), p) && Now(A).count[p] == p.Ucount
    {
      p.Ucount := p.Ucount + 1;
    }

    method Mark(p: BSDNode, ghost A: Automaton<BSDNode>)
      requires p in A.vals
      modifies p`isU
      ensures p.isU
      ensures Now(A) == Marked(old(Now(A)), p)
    {
      p.isU := true;
    }
  }
}
