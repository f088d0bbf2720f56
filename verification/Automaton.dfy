/**
 The node structure of a BSD automaton as a value, for any type N of node
 identities, and what adding a node or an edge keeps.
*/
module Automata {
  import opened Components
  import opened Language
  import opened Lambdas
  import opened Lists
  import opened Markings
  import opened Reachability

  datatype Val<N> = Val(isU: bool, list: seq<nat>, successors: map<nat, N>, predecessors: seq<(nat, N)>, Ucount: nat,
                        lambda: nat)

  /** inner: the nodes other than U and the empty node, in the order of their creation. */
  datatype Automaton<N> = Automaton(inner: seq<N>, U: N, empty: N, vals: map<N, Val<N>>)

  /** The nodes are pairwise different objects, and each has a value. */
  ghost predicate Nodes<N>(A: Automaton<N>) {
    && Distinct(A.inner)
    && A.U !in A.inner && A.empty !in A.inner && A.U != A.empty
    && A.vals.Keys == SetOf(A.inner) + {A.U, A.empty}
  }

  ghost predicate TauClosed(g: seq<InnerMarking>, S: set<nat>) {
    && S != {}
    && (forall m :: m in S ==> m < |g| && !g[m].isBad)
    && Closed(TauSteps(g), S)
  }

  /** What each inner node stores. */
  ghost predicate StateOK<N>(g: seq<InnerMarking>, ab: Alphabet, v: Val<N>) {
    && Ascending(v.list)
    && TauClosed(g, SetOf(v.list))
    && v.lambda == Lambda(g, ab, SetOf(v.list))
    && !v.isU && v.Ucount == 0
  }

  ghost predicate StatesOK<N>(g: seq<InnerMarking>, ab: Alphabet, A: Automaton<N>) {
    forall n :: n in A.inner && n in A.vals ==> StateOK(g, ab, A.vals[n])
  }

  ghost predicate NoTwins<N>(A: Automaton<N>) {
    forall n, m :: n in A.inner && m in A.inner && n in A.vals && m in A.vals && n != m ==>
      A.vals[n].list != A.vals[m].list
  }

  /** Where a node is, in terms of the subset construction. */
  ghost function At<N>(A: Automaton<N>, n: N): Location {
    if n == A.U then Broken
    else if n == A.empty then Dead
    else if n in A.vals then Marks(SetOf(A.vals[n].list))
    else Dead
  }

  ghost predicate Leads<N>(g: seq<InnerMarking>, ab: Alphabet, A: Automaton<N>, n: N, l: nat, t: N)
    requires WellFormed(g)
  {
    ab.Visible(l) && t in A.vals && At(A, t) == Next(g, At(A, n), l)
  }

  /** Every recorded successor is the one of the subset construction. */
  ghost predicate EdgesOK<N>(g: seq<InnerMarking>, ab: Alphabet, A: Automaton<N>)
    requires WellFormed(g)
  {
    forall n, l :: n in A.inner && n in A.vals && l in A.vals[n].successors ==>
      Leads(g, ab, A, n, l, A.vals[n].successors[l])
  }

  ghost predicate LoopsOK<N>(ab: Alphabet, A: Automaton<N>) {
    && A.U in A.vals && A.empty in A.vals
    && (forall l :: l in A.vals[A.U].successors <==> ab.Visible(l))
    && (forall l :: l in A.vals[A.U].successors ==> A.vals[A.U].successors[l] == A.U)
    && (forall l :: l in A.vals[A.empty].successors <==> ab.Visible(l))
    && (forall l :: l in A.vals[A.empty].successors ==> A.vals[A.empty].successors[l] == A.empty)
    && A.vals[A.U].isU && !A.vals[A.empty].isU
    && A.vals[A.U].lambda == 0 && A.vals[A.empty].lambda == 4
  }

  /** m has an edge labelled l to n. */
  ghost predicate Edge<N>(A: Automaton<N>, m: N, l: nat, n: N) {
    m in A.inner && m in A.vals && l in A.vals[m].successors && A.vals[m].successors[l] == n
  }

  /** The predecessor list of n holds the edges of inner nodes to n, each once. */
  ghost predicate PredsOf<N>(A: Automaton<N>, n: N)
    requires n in A.vals
  {
    && Distinct(A.vals[n].predecessors)
    && (forall e :: e in A.vals[n].predecessors ==> Edge(A, e.1, e.0, n))
    && (forall m, l :: m in A.inner && m in A.vals && l in A.vals[m].successors && A.vals[m].successors[l] == n ==>
          (l, m) in A.vals[n].predecessors)
  }

  ghost predicate PredsOK<N>(A: Automaton<N>) {
    forall n :: n in A.vals ==> PredsOf(A, n)
  }

  ghost predicate Structure<N>(g: seq<InnerMarking>, ab: Alphabet, A: Automaton<N>)
    requires WellFormed(g)
  {
    && Nodes(A)
    && StatesOK(g, ab, A)
    && NoTwins(A)
    && EdgesOK(g, ab, A)
    && LoopsOK(ab, A)
    && PredsOK(A)
  }

  // ---------- adding a node ----------

  function AddNode<N>(A: Automaton<N>, n: N, v: Val<N>): Automaton<N> {
    A.(inner := A.inner + [n], vals := A.vals[n := v])
  }

  /** A new node with a new marking list keeps the structure. */
  lemma AddNodeOK<N>(g: seq<InnerMarking>, ab: Alphabet, A: Automaton<N>, n: N, v: Val<N>)
    requires WellFormed(g) && Structure(g, ab, A)
    requires n !in A.vals && StateOK(g, ab, v) && v.successors == map[] && v.predecessors == []
    requires forall m :: m in A.inner && m in A.vals ==> A.vals[m].list != v.list
    ensures Structure(g, ab, AddNode(A, n, v))
  {
    hide StateOK, Next, SetOf, PredsOf;
    var B := AddNode(A, n, v);
    AddNodeNodes(A, n, v);
    assert forall m :: m in B.inner <==> m in A.inner || m == n;
    AddNodeEdges(g, ab, A, n, v);
    EdgesInside(g, ab, A);
    AddNodePreds(A, n, v);
  }

  lemma AddNodeNodes<N>(A: Automaton<N>, n: N, v: Val<N>)
    requires Nodes(A) && n !in A.vals
    ensures Nodes(AddNode(A, n, v))
  {
    var B := AddNode(A, n, v);
    assert forall m :: m in B.inner <==> m in A.inner || m == n;
    assert n !in A.inner by { assert n !in SetOf(A.inner); }
  }

  lemma AddNodeEdges<N>(g: seq<InnerMarking>, ab: Alphabet, A: Automaton<N>, n: N, v: Val<N>)
    requires WellFormed(g) && Nodes(A) && EdgesOK(g, ab, A)
    requires n !in A.vals && v.successors == map[]
    ensures EdgesOK(g, ab, AddNode(A, n, v))
  {
    hide Next;
    var B := AddNode(A, n, v);
    forall m, l | m in B.inner && m in B.vals && l in B.vals[m].successors
      ensures Leads(g, ab, B, m, l, B.vals[m].successors[l]) {
      assert m in A.inner;
      assert m in SetOf(A.inner);
      assert Leads(g, ab, A, m, l, A.vals[m].successors[l]);
    }
  }

  lemma EdgesInside<N>(g: seq<InnerMarking>, ab: Alphabet, A: Automaton<N>)
    requires WellFormed(g) && EdgesOK(g, ab, A)
    ensures forall m, l :: m in A.inner && m in A.vals && l in A.vals[m].successors ==>
            A.vals[m].successors[l] in A.vals
  {
    hide Next, At;
    forall m, l | m in A.inner && m in A.vals && l in A.vals[m].successors ensures A.vals[m].successors[l] in A.vals {
      assert Leads(g, ab, A, m, l, A.vals[m].successors[l]);
    }
  }

  lemma AddNodePreds<N>(A: Automaton<N>, n: N, v: Val<N>)
    requires Nodes(A) && PredsOK(A)
    requires forall m, l :: m in A.inner && m in A.vals && l in A.vals[m].successors ==>
             A.vals[m].successors[l] in A.vals
    requires n !in A.vals && v.successors == map[] && v.predecessors == []
    ensures PredsOK(AddNode(A, n, v))
  {
    var B := AddNode(A, n, v);
    assert forall m :: m in B.inner <==> m in A.inner || m == n;
    forall k | k in B.vals ensures PredsOf(B, k) {
      if k != n {
        assert PredsOf(A, k);
        assert forall e :: e in A.vals[k].predecessors ==> Edge(A, e.1, e.0, k) ==> Edge(B, e.1, e.0, k);
      }
    }
  }

  // ---------- adding an edge ----------

  function WithSuccessor<N>(vals: map<N, Val<N>>, n: N, l: nat, t: N): map<N, Val<N>>
    requires n in vals
  {
    vals[n := vals[n].(successors := vals[n].successors[l := t])]
  }

  function WithPredecessor<N>(vals: map<N, Val<N>>, n: N, l: nat, t: N): map<N, Val<N>>
    requires t in vals
  {
    vals[t := vals[t].(predecessors := vals[t].predecessors + [(l, n)])]
  }

  function AddEdge<N>(A: Automaton<N>, n: N, l: nat, t: N): Automaton<N>
    requires n in A.vals && t in A.vals
  {
    A.(vals := WithPredecessor(WithSuccessor(A.vals, n, l, t), n, l, t))
  }

  ghost predicate SameBut<N>(A: Automaton<N>, B: Automaton<N>, n: N, l: nat, t: N) {
    && n in A.vals && t in A.vals
    && B.inner == A.inner && B.U == A.U && B.empty == A.empty && B.vals.Keys == A.vals.Keys
    && (forall m :: m in A.vals ==>
          && B.vals[m].list == A.vals[m].list && B.vals[m].lambda == A.vals[m].lambda
          && B.vals[m].isU == A.vals[m].isU && B.vals[m].Ucount == A.vals[m].Ucount
          && B.vals[m].successors == (if m == n then A.vals[m].successors[l := t] else A.vals[m].successors)
          && B.vals[m].predecessors == A.vals[m].predecessors + if m == t then [(l, n)] else [])
  }

  lemma AddEdgeSame<N>(A: Automaton<N>, n: N, l: nat, t: N)
    requires n in A.vals && t in A.vals
    ensures SameBut(A, AddEdge(A, n, l, t), n, l, t)
  {
  }

  lemma AddEdgeEdges<N>(g: seq<InnerMarking>, ab: Alphabet, A: Automaton<N>, B: Automaton<N>, n: N, l: nat, t: N)
    requires WellFormed(g) && EdgesOK(g, ab, A) && SameBut(A, B, n, l, t)
    requires Leads(g, ab, A, n, l, t)
    ensures EdgesOK(g, ab, B)
  {
    hide Next;
    forall m, k | m in B.inner && m in B.vals && k in B.vals[m].successors
      ensures Leads(g, ab, B, m, k, B.vals[m].successors[k]) {
      if m != n || k != l { assert Leads(g, ab, A, m, k, A.vals[m].successors[k]); }
    }
  }

  lemma AddEdgePreds<N>(A: Automaton<N>, B: Automaton<N>, n: N, l: nat, t: N)
    requires PredsOK(A) && SameBut(A, B, n, l, t)
    requires n in A.inner && l !in A.vals[n].successors
    ensures PredsOK(B)
  {
    forall k | k in B.vals ensures PredsOf(B, k) {
      AddEdgePredsOf(A, B, n, l, t, k);
    }
  }

  lemma AddEdgePredsOf<N>(A: Automaton<N>, B: Automaton<N>, n: N, l: nat, t: N, k: N)
    requires k in A.vals && PredsOf(A, k) && SameBut(A, B, n, l, t)
    requires n in A.inner && l !in A.vals[n].successors
    ensures k in B.vals && PredsOf(B, k)
  {
    var old_, new_ := A.vals[k].predecessors, B.vals[k].predecessors;
    assert forall e :: e in old_ ==> Edge(A, e.1, e.0, k);
    assert (l, n) !in old_;
    assert forall e :: e in new_ <==> e in old_ || (k == t && e == (l, n));
    forall e | e in new_ ensures Edge(B, e.1, e.0, k) {
      if e in old_ { assert Edge(A, e.1, e.0, k); }
    }
  }

  lemma AddEdgeOK<N>(g: seq<InnerMarking>, ab: Alphabet, A: Automaton<N>, n: N, l: nat, t: N)
    requires WellFormed(g) && Structure(g, ab, A)
    requires n in A.inner && n in A.vals && l !in A.vals[n].successors
    requires Leads(g, ab, A, n, l, t)
    ensures Structure(g, ab, AddEdge(A, n, l, t))
  {
    hide Next, TauClosed, Lambda, PredsOf, Distinct, PredsOK, EdgesOK, Leads;
    LeadsInside(g, ab, A, n, l, t);
    var B := AddEdge(A, n, l, t);
    AddEdgeSame(A, n, l, t);
    AddEdgeEdges(g, ab, A, B, n, l, t);
    AddEdgePreds(A, B, n, l, t);
    assert n != A.U && n != A.empty;
  }

  lemma LeadsInside<N>(g: seq<InnerMarking>, ab: Alphabet, A: Automaton<N>, n: N, l: nat, t: N)
    requires WellFormed(g) && Leads(g, ab, A, n, l, t)
    ensures t in A.vals
  {
    hide Next, At;
  }

  // ---------- the finished automaton ----------

  ghost predicate Complete<N>(ab: Alphabet, A: Automaton<N>) {
    forall n :: n in A.inner && n in A.vals ==> forall l :: l in A.vals[n].successors <==> ab.Visible(l)
  }

  /** The node where every word starts: U if the bound is broken at once. */
  ghost function First<N>(A: Automaton<N>): N {
    if A.inner == [] then A.U else A.inner[0]
  }

  ghost predicate StartsAt<N>(g: seq<InnerMarking>, A: Automaton<N>) {
    At(A, First(A)) == Initial(g)
  }

  ghost predicate IsBSD<N>(g: seq<InnerMarking>, ab: Alphabet, A: Automaton<N>)
    requires WellFormed(g)
  {
    Structure(g, ab, A) && Complete(ab, A) && StartsAt(g, A)
  }

  /** The node that the successor pointers lead to along w. */
  ghost function Follow<N>(A: Automaton<N>, w: seq<nat>): Option<N> {
    if w == [] then Some(First(A))
    else
      var n := Follow(A, w[..|w| - 1]);
      if n.Some? && n.value in A.vals && w[|w| - 1] in A.vals[n.value].successors
      then Some(A.vals[n.value].successors[w[|w| - 1]]) else None
  }

  lemma FollowStep<N>(g: seq<InnerMarking>, ab: Alphabet, A: Automaton<N>, n: N, l: nat)
    requires WellFormed(g) && Structure(g, ab, A) && Complete(ab, A) && n in A.vals && ab.Visible(l)
    ensures l in A.vals[n].successors
    ensures A.vals[n].successors[l] in A.vals
    ensures At(A, A.vals[n].successors[l]) == Next(g, At(A, n), l)
  {
    hide StatesOK, NoTwins, PredsOK, Targets, ClosureOf, AnyBad;
    if n != A.U && n != A.empty {
      assert n in SetOf(A.inner);
      assert Leads(g, ab, A, n, l, A.vals[n].successors[l]);
    }
  }

  lemma FirstNodeInside<N>(g: seq<InnerMarking>, ab: Alphabet, A: Automaton<N>)
    requires WellFormed(g) && Structure(g, ab, A)
    ensures First(A) in A.vals
  {
    hide StatesOK, NoTwins, PredsOK, EdgesOK;
    if A.inner != [] { assert A.inner[0] in SetOf(A.inner); }
  }

  lemma {:induction false} FollowLocates<N>(g: seq<InnerMarking>, ab: Alphabet, A: Automaton<N>, w: seq<nat>)
    requires WellFormed(g) && IsBSD(g, ab, A) && WordOver(ab, w)
    ensures Follow(A, w).Some? && Follow(A, w).value in A.vals
    ensures At(A, Follow(A, w).value) == Locate(g, w)
  {
    hide Structure, Complete, Next, Initial, At;
    if w == [] {
      FirstNodeInside(g, ab, A);
    } else {
      FollowLocates(g, ab, A, w[..|w| - 1]);
      FollowStep(g, ab, A, Follow(A, w[..|w| - 1]).value, w[|w| - 1]);
    }
  }

  /** The automaton decides weak reachability for every word: it ends at U exactly
      if some prefix can break the bound, otherwise at the empty node exactly if no
      marking is weakly reachable, and otherwise at the inner node that lists
      exactly the weakly reachable markings. */
  lemma AutomatonLanguage<N>(g: seq<InnerMarking>, ab: Alphabet, A: Automaton<N>, w: seq<nat>)
    requires WellFormed(g) && |g| > 0 && IsBSD(g, ab, A) && WordOver(ab, w)
    ensures Follow(A, w).Some? && Follow(A, w).value in A.vals
    ensures var n := Follow(A, w).value;
            && (n == A.U <==> BoundBroken(g, w))
            && (!BoundBroken(g, w) ==> (n == A.empty <==> forall m: nat :: !WeaklyReaches(g, false, w, m)))
            && (!BoundBroken(g, w) && n != A.empty ==>
                  n in A.inner && forall m: nat :: m in A.vals[n].list <==> WeaklyReaches(g, false, w, m))
  {
    hide WeaklyReaches, BoundBroken, Locate, Follow, StatesOK, NoTwins, PredsOK, EdgesOK, Complete;
    FollowLocates(g, ab, A, w);
    LocateCorrect(g, w);
    var n := Follow(A, w).value;
    assert n != A.U && n != A.empty ==> n in SetOf(A.inner);
    assert forall m: nat :: m in SetOf(A.vals[n].list) <==> m in A.vals[n].list;
  }

  /** Some prefix of w reaches a bad marking along any edges of the graph. */
  ghost predicate CanBreak(g: seq<InnerMarking>, w: seq<nat>)
    requires WellFormed(g)
  {
    exists k: nat, b: nat :: k <= |w| && b < |g| && g[b].isBad && WeaklyReaches(g, true, w[..k], b)
  }

  /** With at most one successor for each visible label, this is the language of the
      marking graph itself, all its edges counted. */
  lemma GraphLanguage<N>(g: seq<InnerMarking>, ab: Alphabet, A: Automaton<N>, w: seq<nat>)
    requires WellFormed(g) && |g| > 0 && IsBSD(g, ab, A) && WordOver(ab, w) && Deterministic(g, ab)
    ensures Follow(A, w).Some? && Follow(A, w).value in A.vals
    ensures var n := Follow(A, w).value;
            && (n == A.U <==> CanBreak(g, w))
            && (!CanBreak(g, w) ==> (n == A.empty <==> forall m: nat :: !WeaklyReaches(g, true, w, m)))
            && (!CanBreak(g, w) && n != A.empty ==>
                  n in A.inner && forall m: nat :: m in A.vals[n].list <==> WeaklyReaches(g, true, w, m))
  {
    hide WeaklyReaches, Deterministic, Follow, IsBSD;
    AutomatonLanguage(g, ab, A, w);
    forall k: nat, b: nat | k <= |w| ensures WeaklyReaches(g, true, w[..k], b) <==> WeaklyReaches(g, false, w[..k], b) {
      DeterministicReaches(g, ab, w[..k], b);
    }
    forall m: nat ensures WeaklyReaches(g, true, w, m) <==> WeaklyReaches(g, false, w, m) {
      DeterministicReaches(g, ab, w, m);
    }
  }

  /** Different nodes list different sets of markings. */
  lemma NodesDiffer<N>(g: seq<InnerMarking>, ab: Alphabet, A: Automaton<N>, n: N, m: N)
    requires WellFormed(g) && Structure(g, ab, A) && n in A.inner && m in A.inner && n != m
    ensures n in A.vals && m in A.vals && SetOf(A.vals[n].list) != SetOf(A.vals[m].list)
  {
    hide EdgesOK, LoopsOK, PredsOK, TauClosed, Lambda;
    assert n in SetOf(A.inner) && m in SetOf(A.inner);
    assert StateOK(g, ab, A.vals[n]) && StateOK(g, ab, A.vals[m]);
    if SetOf(A.vals[n].list) == SetOf(A.vals[m].list) {
      AscendingUnique(A.vals[n].list, A.vals[m].list);
    }
  }
}
