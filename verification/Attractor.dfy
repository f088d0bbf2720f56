/**
 The nodes from which the environment cannot avoid the U node: the least set
 that contains U, every node with a receiving edge into the set, and every node
 with lambda 1 all of whose sending edges lead into the set.
*/
module Attractors {
  import opened Automata
  import opened Markings
  import opened Sets

  // ---------- the least set, built in stages ----------

  ghost predicate ReceivesInto<N>(ab: Alphabet, A: Automaton<N>, p: N, S: set<N>)
    requires p in A.vals
  {
    exists l :: ab.Receiving(l) && l in A.vals[p].successors && A.vals[p].successors[l] in S
  }

  ghost predicate SendsInto<N>(ab: Alphabet, A: Automaton<N>, p: N, S: set<N>)
    requires p in A.vals
  {
    && A.vals[p].lambda == 1 && ab.sends >= 1
    && forall l :: ab.Sending(l) ==> l in A.vals[p].successors && A.vals[p].successors[l] in S
  }

  ghost predicate Forced<N>(ab: Alphabet, A: Automaton<N>, p: N, S: set<N>)
    requires p in A.vals
  {
    ReceivesInto(ab, A, p, S) || SendsInto(ab, A, p, S)
  }

  ghost predicate AttrClosed<N>(ab: Alphabet, A: Automaton<N>, S: set<N>) {
    A.U in S && forall p :: p in A.inner && p in A.vals && Forced(ab, A, p, S) ==> p in S
  }

  /** Closed, in terms of the labels alone: S holds U, every inner node with a receiving edge
      into S, and every inner node with lambda 1 all of whose sending edges, of which there is
      at least one, lead into S. */
  lemma AttrClosedRules<N>(ab: Alphabet, A: Automaton<N>, S: set<N>)
    ensures AttrClosed(ab, A, S) <==>
            && A.U in S
            && (forall p, l | p in A.inner && p in A.vals && 2 <= l < 2 + ab.receives && l in A.vals[p].successors ::
                  A.vals[p].successors[l] in S ==> p in S)
            && (forall p | p in A.inner && p in A.vals && A.vals[p].lambda == 1 && ab.sends >= 1 ::
                  (forall l :: 2 + ab.receives <= l < 2 + ab.receives + ab.sends ==>
                     l in A.vals[p].successors && A.vals[p].successors[l] in S) ==> p in S)
  {
    LabelRanges(ab);
    if AttrClosed(ab, A, S) {
      forall p, l | p in A.inner && p in A.vals && 2 <= l < 2 + ab.receives && l in A.vals[p].successors
        ensures A.vals[p].successors[l] in S ==> p in S
      {
        assert ab.Receiving(l);
        assert A.vals[p].successors[l] in S ==> Forced(ab, A, p, S);
      }
      forall p | p in A.inner && p in A.vals && A.vals[p].lambda == 1 && ab.sends >= 1
        ensures (forall l :: 2 + ab.receives <= l < 2 + ab.receives + ab.sends ==>
                   l in A.vals[p].successors && A.vals[p].successors[l] in S) ==> p in S
      {
        assert Forced(ab, A, p, S) ==> p in S;
      }
    }
  }

  ghost function Stage<N>(ab: Alphabet, A: Automaton<N>, k: nat): set<N> {
    if k == 0 then {A.U}
    else
      var S := Stage(ab, A, k - 1);
      S + set p | p in A.vals && p in A.inner && Forced(ab, A, p, S)
  }

  ghost function Attractor<N>(ab: Alphabet, A: Automaton<N>): set<N> {
    set p | p in A.vals.Keys + {A.U} && exists k: nat :: p in Stage(ab, A, k)
  }

  lemma {:induction false} StageMonotone<N>(ab: Alphabet, A: Automaton<N>, k: nat, m: nat)
    requires k <= m
    ensures Stage(ab, A, k) <= Stage(ab, A, m)
  {
    if k < m { StageMonotone(ab, A, k, m - 1); }
  }

  lemma {:induction false} StageInside<N>(ab: Alphabet, A: Automaton<N>, k: nat)
    ensures Stage(ab, A, k) <= A.vals.Keys + {A.U}
  {
    if k > 0 { StageInside(ab, A, k - 1); }
  }

  lemma {:induction false} CommonStage<N>(ab: Alphabet, A: Automaton<N>, p: N, n: nat) returns (k: nat)
    requires p in A.vals
    requires forall l :: ab.FirstSend() <= l < ab.FirstSend() + n ==>
             l in A.vals[p].successors && A.vals[p].successors[l] in Attractor(ab, A)
    ensures forall l :: ab.FirstSend() <= l < ab.FirstSend() + n ==>
            l in A.vals[p].successors && A.vals[p].successors[l] in Stage(ab, A, k)
  {
    hide Stage;
    if n == 0 {
      k := 0;
    } else {
      var j := CommonStage(ab, A, p, n - 1);
      var t := A.vals[p].successors[ab.FirstSend() + n - 1];
      var i: nat :| t in Stage(ab, A, i);
      k := if i < j then j else i;
      StageMonotone(ab, A, j, k);
      StageMonotone(ab, A, i, k);
    }
  }

  /** The attractor is closed ... */
  lemma AttractorClosed<N>(ab: Alphabet, A: Automaton<N>)
    ensures AttrClosed(ab, A, Attractor(ab, A))
  {
    assert A.U in Stage(ab, A, 0);
    forall p | p in A.inner && p in A.vals && Forced(ab, A, p, Attractor(ab, A)) ensures p in Attractor(ab, A) {
      var k: nat;
      if SendsInto(ab, A, p, Attractor(ab, A)) {
        k := CommonStage(ab, A, p, ab.sends);
        assert SendsInto(ab, A, p, Stage(ab, A, k));
      } else {
        var l :| ab.Receiving(l) && l in A.vals[p].successors && A.vals[p].successors[l] in Attractor(ab, A);
        k :| A.vals[p].successors[l] in Stage(ab, A, k);
        assert ReceivesInto(ab, A, p, Stage(ab, A, k));
      }
      assert p in Stage(ab, A, k + 1);
    }
  }

  lemma {:induction false} StageLeast<N>(ab: Alphabet, A: Automaton<N>, S: set<N>, k: nat)
    requires AttrClosed(ab, A, S)
    ensures Stage(ab, A, k) <= S
  {
    if k > 0 {
      StageLeast(ab, A, S, k - 1);
      forall p | p in A.vals && p in A.inner && Forced(ab, A, p, Stage(ab, A, k - 1)) ensures p in S {
        assert Forced(ab, A, p, S);
      }
    }
  }

  /** ... and contained in every closed set. */
  lemma AttractorLeast<N>(ab: Alphabet, A: Automaton<N>, S: set<N>)
    requires AttrClosed(ab, A, S)
    ensures Attractor(ab, A) <= S
  {
    forall p | p in Attractor(ab, A) ensures p in S {
      var k: nat :| p in Stage(ab, A, k);
      StageLeast(ab, A, S, k);
    }
  }

  // ---------- the state of the backward search ----------

  /** progress: for every visited node, how many of its predecessor entries have been handled. */
  datatype Marking<N> = Marking(isU: map<N, bool>, count: map<N, nat>, visited: set<N>, progress: map<N, nat>)

  /** The entry (l, p) was handled at the node it belongs to. */
  ghost predicate Handled<N>(A: Automaton<N>, progress: map<N, nat>, p: N, l: nat) {
    exists n, i :: n in progress && n in A.vals && 0 <= i < progress[n] && i < |A.vals[n].predecessors|
      && A.vals[n].predecessors[i] == (l, p)
  }

  ghost function Sent<N>(ab: Alphabet, A: Automaton<N>, progress: map<N, nat>, p: N): set<nat> {
    set l: nat | l <= ab.LastSend() && ab.Sending(l) && Handled(A, progress, p, l)
  }

  ghost predicate HeardFrom<N>(ab: Alphabet, A: Automaton<N>, progress: map<N, nat>, p: N) {
    exists l :: ab.Receiving(l) && Handled(A, progress, p, l)
  }

  ghost predicate CountOK<N>(ab: Alphabet, A: Automaton<N>, s: Marking<N>, p: N)
    requires p in A.vals && p in s.count && p in s.isU
  {
    && s.count[p] == (if A.vals[p].lambda == 1 then |Sent(ab, A, s.progress, p)| else 0)
    && (s.isU[p] <==> HeardFrom(ab, A, s.progress, p)
                      || (A.vals[p].lambda == 1 && ab.sends >= 1 && |Sent(ab, A, s.progress, p)| == ab.sends))
  }

  ghost predicate CountsOK<N>(ab: Alphabet, A: Automaton<N>, s: Marking<N>) {
    && s.count.Keys == A.vals.Keys && s.isU.Keys == A.vals.Keys
    && A.U in A.vals && s.isU[A.U]
    && (A.empty in s.isU ==> !s.isU[A.empty])
    && forall p :: p in A.inner && p in A.vals ==> CountOK(ab, A, s, p)
  }

  ghost predicate ProgressOK<N>(A: Automaton<N>, s: Marking<N>) {
    && s.visited <= A.vals.Keys && s.progress.Keys == s.visited
    && (forall n :: n in s.visited ==> s.progress[n] <= |A.vals[n].predecessors|)
    && (forall n :: n in s.visited ==> n in s.isU && s.isU[n] && (n in A.inner || n == A.U))
  }

  /** Marked nodes lie in C, and all but perhaps one of them have been visited. */
  ghost predicate MarkedOK<N>(A: Automaton<N>, s: Marking<N>, C: set<N>, next: set<N>) {
    forall n :: n in s.isU && n in A.vals && s.isU[n] && (n in A.inner || n == A.U) ==>
      n in C && (n in s.visited || n in next)
  }

  ghost predicate SearchOK<N>(ab: Alphabet, A: Automaton<N>, s: Marking<N>, C: set<N>, next: set<N>) {
    CountsOK(ab, A, s) && ProgressOK(A, s) && MarkedOK(A, s, C, next)
  }

  // ---------- handling one entry ----------

  lemma EntryIsEdge<N>(A: Automaton<N>, n: N, i: nat)
    requires PredsOK(A) && n in A.vals && i < |A.vals[n].predecessors|
    ensures Edge(A, A.vals[n].predecessors[i].1, A.vals[n].predecessors[i].0, n)
  {
    assert PredsOf(A, n);
    assert A.vals[n].predecessors[i] in A.vals[n].predecessors;
  }

  /** Handling the next entry of n adds exactly that entry, which was not handled before. */
  lemma HandleNext<N>(A: Automaton<N>, progress: map<N, nat>, n: N)
    requires PredsOK(A) && n in A.vals && n in progress && progress[n] < |A.vals[n].predecessors|
    requires forall m :: m in progress ==> m in A.vals
    ensures var e := A.vals[n].predecessors[progress[n]];
            && !Handled(A, progress, e.1, e.0)
            && forall q, k: nat :: Handled(A, progress[n := progress[n] + 1], q, k) <==>
              Handled(A, progress, q, k) || (k, q) == e
  {
    hide PredsOK;
    var e := A.vals[n].predecessors[progress[n]];
    var progress' := progress[n := progress[n] + 1];
    if Handled(A, progress, e.1, e.0) {
      HandledOnce(A, progress, n);
    }
    forall q, k: nat ensures Handled(A, progress', q, k) <==> Handled(A, progress, q, k) || (k, q) == e {
      if Handled(A, progress, q, k) {
        var m, i :| m in progress && m in A.vals && 0 <= i < progress[m] && i < |A.vals[m].predecessors|
          && A.vals[m].predecessors[i] == (k, q);
        assert i < progress'[m];
      }
      if (k, q) == e {
        assert progress[n] < progress'[n] && A.vals[n].predecessors[progress[n]] == (k, q);
      }
    }
  }

  lemma HandledOnce<N>(A: Automaton<N>, progress: map<N, nat>, n: N)
    requires PredsOK(A) && n in A.vals && n in progress && progress[n] < |A.vals[n].predecessors|
    ensures !Handled(A, progress, A.vals[n].predecessors[progress[n]].1, A.vals[n].predecessors[progress[n]].0)
  {
    var e := A.vals[n].predecessors[progress[n]];
    EntryIsEdge(A, n, progress[n]);
    assert PredsOf(A, n);
    forall m, i | m in progress && m in A.vals && 0 <= i < progress[m] && i < |A.vals[m].predecessors|
      ensures A.vals[m].predecessors[i] != e
    {
      EntryIsEdge(A, m, i);
    }
  }

  ghost function SendingLabels(ab: Alphabet): set<nat> {
    set l: nat | l <= ab.LastSend() && ab.Sending(l)
  }

  lemma SendingCount(ab: Alphabet, S: set<nat>)
    requires S <= SendingLabels(ab)
    ensures |S| <= ab.sends
    ensures |S| == ab.sends ==> S == SendingLabels(ab)
    ensures |SendingLabels(ab)| == ab.sends
  {
    var all := Range(ab.FirstSend(), ab.sends);
    RangeSize(ab.FirstSend(), ab.sends);
    assert SendingLabels(ab) == all;
    assert all == S + (all - S);
    assert |all| == |S| + |all - S|;
  }

  /** A handled entry is an edge to a visited node. */
  lemma HandledVisited<N>(A: Automaton<N>, s: Marking<N>, p: N, l: nat)
    requires PredsOK(A) && ProgressOK(A, s) && Handled(A, s.progress, p, l)
    ensures p in A.inner && p in A.vals && l in A.vals[p].successors && A.vals[p].successors[l] in s.visited
  {
    var n, i :| n in s.progress && n in A.vals && 0 <= i < s.progress[n] && i < |A.vals[n].predecessors|
      && A.vals[n].predecessors[i] == (l, p);
    EntryIsEdge(A, n, i);
  }

  /** A node whose handled entries force it is in every closed set that contains the visited nodes. */
  lemma ForcedInside<N>(ab: Alphabet, A: Automaton<N>, s: Marking<N>, C: set<N>, p: N)
    requires PredsOK(A) && ProgressOK(A, s) && AttrClosed(ab, A, C)
    requires p in A.inner && p in A.vals
    requires forall n :: n in s.visited ==> n in C
    requires HeardFrom(ab, A, s.progress, p)
             || (A.vals[p].lambda == 1 && ab.sends >= 1 && |Sent(ab, A, s.progress, p)| == ab.sends)
    ensures p in C
  {
    hide PredsOK, ProgressOK, Handled;
    if HeardFrom(ab, A, s.progress, p) {
      var l :| ab.Receiving(l) && Handled(A, s.progress, p, l);
      HandledVisited(A, s, p, l);
      assert ReceivesInto(ab, A, p, C);
    } else {
      SendingCount(ab, Sent(ab, A, s.progress, p));
      forall l | ab.Sending(l) ensures l in A.vals[p].successors && A.vals[p].successors[l] in C {
        assert l in SendingLabels(ab);
        HandledVisited(A, s, p, l);
      }
      assert SendsInto(ab, A, p, C);
    }
    assert Forced(ab, A, p, C);
  }

  // ---------- the three kinds of entries ----------

  function Advance<N>(s: Marking<N>, n: N): Marking<N>
    requires n in s.progress
  {
    s.(progress := s.progress[n := s.progress[n] + 1])
  }

  function Counted<N>(s: Marking<N>, p: N): Marking<N>
    requires p in s.count
  {
    s.(count := s.count[p := s.count[p] + 1])
  }

  function Marked<N>(s: Marking<N>, p: N): Marking<N> {
    s.(isU := s.isU[p := true])
  }

  ghost predicate NextEntry<N>(A: Automaton<N>, s: Marking<N>, n: N, l: nat, p: N) {
    && n in A.vals && n in s.visited && n in s.progress
    && s.progress[n] < |A.vals[n].predecessors|
    && A.vals[n].predecessors[s.progress[n]] == (l, p)
  }

  /** How the handled entries of q change when the entry (l, p) of n is handled. */
  lemma SentNext<N>(ab: Alphabet, A: Automaton<N>, s: Marking<N>, n: N, l: nat, p: N, q: N)
    requires PredsOK(A) && ProgressOK(A, s) && NextEntry(A, s, n, l, p)
    ensures var progress' := Advance(s, n).progress;
            && Sent(ab, A, progress', q) == Sent(ab, A, s.progress, q) + (if q == p && ab.Sending(l) then {l} else {})
            && |Sent(ab, A, progress', q)| == |Sent(ab, A, s.progress, q)| + (if q == p && ab.Sending(l) then 1 else 0)
            && (HeardFrom(ab, A, progress', q) <==> HeardFrom(ab, A, s.progress, q) || (q == p && ab.Receiving(l)))
  {
    hide PredsOK, Handled;
    HandleNext(A, s.progress, n);
    assert l !in Sent(ab, A, s.progress, p);
    var progress' := Advance(s, n).progress;
    forall k: nat ensures k in Sent(ab, A, progress', q) <==>
      k in Sent(ab, A, s.progress, q) + (if q == p && ab.Sending(l) then {l} else {}) {
      assert Handled(A, progress', q, k) <==> Handled(A, s.progress, q, k) || (k, q) == (l, p);
    }
    if q == p && ab.Receiving(l) { assert Handled(A, progress', q, l); }
    if HeardFrom(ab, A, s.progress, q) {
      var k :| ab.Receiving(k) && Handled(A, s.progress, q, k);
      assert Handled(A, progress', q, k);
    }
  }

  /** What the search does with the entry (l, p) of n. */
  function Handle<N>(ab: Alphabet, A: Automaton<N>, s: Marking<N>, n: N, l: nat, p: N): Marking<N>
    requires n in s.progress && p in A.vals && p in s.count
  {
    if ab.Sending(l) && A.vals[p].lambda == 1 then
      var c := Counted(Advance(s, n), p);
      if c.count[p] == ab.sends then Marked(c, p) else c
    else if ab.Receiving(l) then Marked(Advance(s, n), p)
    else Advance(s, n)
  }

  /** Whether the search goes on from p. */
  predicate Triggers<N>(ab: Alphabet, A: Automaton<N>, s: Marking<N>, l: nat, p: N)
    requires p in A.vals && p in s.count
  {
    if ab.Sending(l) && A.vals[p].lambda == 1 then s.count[p] + 1 == ab.sends else ab.Receiving(l)
  }

  lemma EntryPoint<N>(A: Automaton<N>, s: Marking<N>, n: N, l: nat, p: N)
    requires PredsOK(A) && NextEntry(A, s, n, l, p)
    ensures p in A.inner && p in A.vals
  {
    hide PredsOK;
    EntryIsEdge(A, n, s.progress[n]);
  }

  lemma HandleCount<N>(ab: Alphabet, A: Automaton<N>, s: Marking<N>, n: N, l: nat, p: N, q: N)
    requires PredsOK(A) && CountsOK(ab, A, s) && ProgressOK(A, s) && NextEntry(A, s, n, l, p)
    requires p in A.inner && p in A.vals && q in A.inner && q in A.vals
    ensures CountOK(ab, A, Handle(ab, A, s, n, l, p), q)
  {
    hide PredsOK, ProgressOK, Sent, HeardFrom;
    assert CountOK(ab, A, s, q) && CountOK(ab, A, s, p);
    SentNext(ab, A, s, n, l, p, q);
    SendingBound(ab, A, s.progress, q);
    SendingBound(ab, A, Advance(s, n).progress, q);
  }

  lemma SendingBound<N>(ab: Alphabet, A: Automaton<N>, progress: map<N, nat>, q: N)
    ensures |Sent(ab, A, progress, q)| <= ab.sends
  {
    SendingCount(ab, Sent(ab, A, progress, q));
  }

  lemma HandleCounts<N>(ab: Alphabet, A: Automaton<N>, s: Marking<N>, n: N, l: nat, p: N)
    requires PredsOK(A) && CountsOK(ab, A, s) && ProgressOK(A, s) && NextEntry(A, s, n, l, p)
    requires p in A.inner && p in A.vals && A.empty !in A.inner
    ensures CountsOK(ab, A, Handle(ab, A, s, n, l, p))
  {
    hide PredsOK, CountOK;
    HandleKeys(ab, A, s, n, l, p);
    var s' := Handle(ab, A, s, n, l, p);
    forall q | q in A.inner && q in A.vals ensures CountOK(ab, A, s', q) { HandleCount(ab, A, s, n, l, p, q); }
  }

  lemma HandleKeys<N>(ab: Alphabet, A: Automaton<N>, s: Marking<N>, n: N, l: nat, p: N)
    requires n in s.progress && p in A.vals && p in s.count && s.isU.Keys == s.count.Keys == A.vals.Keys
    ensures var s' := Handle(ab, A, s, n, l, p);
            && s'.isU.Keys == s'.count.Keys == A.vals.Keys
            && s'.visited == s.visited && s'.progress == s.progress[n := s.progress[n] + 1]
            && (forall q :: q in s.isU && s.isU[q] ==> s'.isU[q])
            && (forall q :: q in s.isU && q != p ==> s'.isU[q] == s.isU[q])
            && (!Triggers(ab, A, s, l, p) ==> s'.isU == s.isU)
            && (Triggers(ab, A, s, l, p) ==> s'.isU[p])
  {
  }

  lemma HandleProgress<N>(ab: Alphabet, A: Automaton<N>, s: Marking<N>, n: N, l: nat, p: N)
    requires ProgressOK(A, s) && NextEntry(A, s, n, l, p) && p in A.vals && p in s.count
    requires s.isU.Keys == s.count.Keys == A.vals.Keys
    ensures ProgressOK(A, Handle(ab, A, s, n, l, p))
  {
    hide Handle, Triggers;
    HandleKeys(ab, A, s, n, l, p);
  }

  /** Handling an entry keeps the invariant; p is the only node it may mark. */
  lemma HandleOK<N>(ab: Alphabet, A: Automaton<N>, s: Marking<N>, C: set<N>, n: N, l: nat, p: N)
    requires PredsOK(A) && AttrClosed(ab, A, C) && A.U !in A.inner && A.empty !in A.inner
    requires SearchOK(ab, A, s, C, {}) && NextEntry(A, s, n, l, p)
    ensures p in A.inner && p in A.vals && p in s.count
    ensures SearchOK(ab, A, Handle(ab, A, s, n, l, p), C, if Triggers(ab, A, s, l, p) then {p} else {})
    ensures Triggers(ab, A, s, l, p) ==> Handle(ab, A, s, n, l, p).isU[p]
  {
    hide PredsOK, CountOK, AttrClosed, Handle, Triggers;
    EntryPoint(A, s, n, l, p);
    HandleCounts(ab, A, s, n, l, p);
    HandleProgress(ab, A, s, n, l, p);
    HandleKeys(ab, A, s, n, l, p);
    var s' := Handle(ab, A, s, n, l, p);
    if s'.isU[p] {
      assert CountOK(ab, A, s', p);
      HandledForces(ab, A, s', C, p);
    }
  }

  lemma HandledForces<N>(ab: Alphabet, A: Automaton<N>, s: Marking<N>, C: set<N>, p: N)
    requires PredsOK(A) && AttrClosed(ab, A, C) && ProgressOK(A, s)
    requires p in A.inner && p in A.vals && p in s.count && p in s.isU && CountOK(ab, A, s, p) && s.isU[p]
    requires forall n :: n in s.visited ==> n in C
    ensures p in C
  {
    hide PredsOK, ProgressOK, Sent, HeardFrom, AttrClosed;
    ForcedInside(ab, A, s, C, p);
  }

  // ---------- whole visits and the whole search ----------

  function Visiting<N>(s: Marking<N>, n: N): Marking<N> {
    s.(visited := s.visited + {n}, progress := s.progress[n := 0])
  }

  lemma StartVisit<N>(ab: Alphabet, A: Automaton<N>, s: Marking<N>, C: set<N>, n: N)
    requires SearchOK(ab, A, s, C, {n}) && n in A.vals && n !in s.visited && n in s.isU && s.isU[n]
    requires (n in A.inner || n == A.U)
    ensures SearchOK(ab, A, Visiting(s, n), C, {})
  {
    hide CountOK;
    var s' := Visiting(s, n);
    forall p | p in A.inner && p in A.vals ensures CountOK(ab, A, s', p) {
      assert CountOK(ab, A, s, p);
      VisitingHandles(A, s, n);
      SameHandled(ab, A, s, s', p);
    }
  }

  lemma AlreadyVisited<N>(ab: Alphabet, A: Automaton<N>, s: Marking<N>, C: set<N>, n: N)
    requires SearchOK(ab, A, s, C, {n}) && n in s.visited
    ensures SearchOK(ab, A, s, C, {})
  {
    hide CountsOK, ProgressOK;
  }

  lemma VisitingHandles<N>(A: Automaton<N>, s: Marking<N>, n: N)
    requires n !in s.progress
    ensures forall q, k: nat :: Handled(A, Visiting(s, n).progress, q, k) <==> Handled(A, s.progress, q, k)
  {
    var s' := Visiting(s, n);
    forall q, k: nat ensures Handled(A, s'.progress, q, k) <==> Handled(A, s.progress, q, k) {
      if Handled(A, s.progress, q, k) {
        var m, i :| m in s.progress && m in A.vals && 0 <= i < s.progress[m] && i < |A.vals[m].predecessors|
          && A.vals[m].predecessors[i] == (k, q);
        assert i < s'.progress[m];
      }
    }
  }

  lemma SameHandled<N>(ab: Alphabet, A: Automaton<N>, s: Marking<N>, s': Marking<N>, p: N)
    requires p in A.vals && p in s.count && p in s.isU && CountOK(ab, A, s, p)
    requires s'.count == s.count && s'.isU == s.isU
    requires forall q, k: nat :: Handled(A, s'.progress, q, k) <==> Handled(A, s.progress, q, k)
    ensures CountOK(ab, A, s', p)
  {
    hide Handled;
    assert Sent(ab, A, s'.progress, p) == Sent(ab, A, s.progress, p);
  }

  /** From s0 to s, visited nodes stay visited and, except for those in open,
      keep their progress; newly visited nodes are exhausted. */
  ghost predicate Grown<N>(A: Automaton<N>, s0: Marking<N>, s: Marking<N>, open: set<N>) {
    && (forall n :: n in s0.visited ==> n in s.visited)
    && (forall n :: n in s0.visited && n in s0.progress && n !in open ==>
        n in s.progress && s.progress[n] == s0.progress[n])
    && (forall n :: n in s.visited && n !in s0.visited ==>
        n in A.vals && n in s.progress && s.progress[n] == |A.vals[n].predecessors|)
  }

  lemma GrownTrans<N>(A: Automaton<N>, s0: Marking<N>, s1: Marking<N>, s2: Marking<N>, open: set<N>)
    requires Grown(A, s0, s1, open) && Grown(A, s1, s2, open) && open <= s0.visited
    requires forall n :: n in s1.visited ==> n in s1.progress
    ensures Grown(A, s0, s2, open)
  {
  }

  lemma GrownVisited<N>(A: Automaton<N>, s0: Marking<N>, s: Marking<N>, open: set<N>)
    requires Grown(A, s0, s, open)
    ensures forall n :: n in s0.visited ==> n in s.visited
  {
  }

  lemma GrownClose<N>(A: Automaton<N>, s0: Marking<N>, s: Marking<N>, n: N)
    requires n !in s0.visited && n in A.vals && Grown(A, Visiting(s0, n), s, {n})
    requires n in s.progress && s.progress[n] == |A.vals[n].predecessors|
    ensures Grown(A, s0, s, {})
  {
  }

  lemma GrownSame<N>(A: Automaton<N>, s: Marking<N>, open: set<N>)
    ensures Grown(A, s, s, open)
  {
  }

  lemma HandleGrown<N>(ab: Alphabet, A: Automaton<N>, s: Marking<N>, n: N, l: nat, p: N)
    requires n in s.progress && p in A.vals && p in s.count
    ensures Grown(A, s, Handle(ab, A, s, n, l, p), {n})
    ensures Handle(ab, A, s, n, l, p).visited == s.visited
    ensures n in Handle(ab, A, s, n, l, p).progress && Handle(ab, A, s, n, l, p).progress[n] == s.progress[n] + 1
  {
  }

  lemma ProgressKnown<N>(ab: Alphabet, A: Automaton<N>, s: Marking<N>, C: set<N>, next: set<N>)
    requires SearchOK(ab, A, s, C, next)
    ensures s.progress.Keys == s.visited
  {
    hide CountsOK, MarkedOK;
  }

  /** After a nested visit: s was reached by handling an entry of n, s' by visiting its source. */
  lemma AfterNested<N>(A: Automaton<N>, s0: Marking<N>, s: Marking<N>, s': Marking<N>, n: N)
    requires Grown(A, s0, s, {n}) && Grown(A, s, s', {}) && n in s.visited && s.progress.Keys == s.visited
    ensures Grown(A, s0, s', {n})
    ensures n in s'.visited && n in s'.progress && s'.progress[n] == s.progress[n]
  {
  }

  ghost predicate Exhausted<N>(A: Automaton<N>, s: Marking<N>) {
    forall n :: n in s.visited ==> n in A.vals && n in s.progress && s.progress[n] == |A.vals[n].predecessors|
  }

  ghost function MarkedNodes<N>(A: Automaton<N>, s: Marking<N>): set<N> {
    set n | n in s.isU && s.isU[n] && (n in A.inner || n == A.U)
  }

  /** When every visited node is exhausted, an edge to a marked node has been handled. */
  lemma EdgeHandled<N>(A: Automaton<N>, s: Marking<N>, p: N, l: nat)
    requires PredsOK(A) && Exhausted(A, s)
    requires p in A.inner && p in A.vals && l in A.vals[p].successors && A.vals[p].successors[l] in s.visited
    ensures Handled(A, s.progress, p, l)
  {
    var n := A.vals[p].successors[l];
    assert PredsOf(A, n);
    assert (l, p) in A.vals[n].predecessors;
    var i :| 0 <= i < |A.vals[n].predecessors| && A.vals[n].predecessors[i] == (l, p);
    assert i < s.progress[n];
  }

  lemma SearchClosed<N>(ab: Alphabet, A: Automaton<N>, s: Marking<N>, C: set<N>)
    requires PredsOK(A) && SearchOK(ab, A, s, C, {}) && Exhausted(A, s)
    ensures AttrClosed(ab, A, MarkedNodes(A, s))
  {
    hide PredsOK, CountOK, Exhausted;
    var F := MarkedNodes(A, s);
    assert forall n :: n in F ==> n in s.visited;
    forall p | p in A.inner && p in A.vals && Forced(ab, A, p, F) ensures p in F {
      assert CountOK(ab, A, s, p);
      ForcedIsMarked(ab, A, s, F, p);
    }
  }

  lemma ForcedIsMarked<N>(ab: Alphabet, A: Automaton<N>, s: Marking<N>, F: set<N>, p: N)
    requires PredsOK(A) && Exhausted(A, s) && p in A.inner && p in A.vals && p in s.count && p in s.isU
    requires CountOK(ab, A, s, p)
    requires forall n :: n in F ==> n in s.visited
    requires Forced(ab, A, p, F)
    ensures s.isU[p]
  {
    hide PredsOK, Exhausted, Handled;
    if ReceivesInto(ab, A, p, F) {
      var l :| ab.Receiving(l) && l in A.vals[p].successors && A.vals[p].successors[l] in F;
      EdgeHandled(A, s, p, l);
    } else {
      forall l | l in SendingLabels(ab) ensures l in Sent(ab, A, s.progress, p) {
        EdgeHandled(A, s, p, l);
      }
      SendingCount(ab, SendingLabels(ab));
      assert Sent(ab, A, s.progress, p) == SendingLabels(ab);
    }
  }

  /** The search marks exactly the attractor. */
  lemma SearchExact<N>(ab: Alphabet, A: Automaton<N>, s: Marking<N>)
    requires PredsOK(A) && SearchOK(ab, A, s, Attractor(ab, A), {}) && Exhausted(A, s)
    ensures MarkedNodes(A, s) == Attractor(ab, A)
    ensures A.empty in s.isU ==> !s.isU[A.empty]
  {
    hide PredsOK, CountOK, Exhausted, Attractor;
    SearchClosed(ab, A, s, Attractor(ab, A));
    AttractorLeast(ab, A, MarkedNodes(A, s));
  }

  lemma NothingHandled<N>(ab: Alphabet, A: Automaton<N>, s: Marking<N>)
    requires s.visited == {} && s.progress == map[]
    requires s.count.Keys == s.isU.Keys == A.vals.Keys && A.U in A.vals && s.isU[A.U]
    requires A.empty in s.isU ==> !s.isU[A.empty]
    requires forall n :: n in A.inner && n in A.vals ==> s.count[n] == 0 && !s.isU[n]
    ensures SearchOK(ab, A, s, Attractor(ab, A), {A.U})
  {
    forall p | p in A.inner && p in A.vals ensures CountOK(ab, A, s, p) {
      assert forall l: nat :: !Handled(A, s.progress, p, l);
      assert Sent(ab, A, s.progress, p) == {};
    }
    assert A.U in Stage(ab, A, 0);
  }

  lemma GrownExhausted<N>(A: Automaton<N>, s0: Marking<N>, s: Marking<N>)
    requires Grown(A, s0, s, {}) && s0.visited == {}
    ensures Exhausted(A, s)
  {
  }

  /** The attractor consists of U and inner nodes. */
  lemma AttractorInside<N>(ab: Alphabet, A: Automaton<N>)
    ensures forall n :: n in Attractor(ab, A) ==> n in A.inner || n == A.U
  {
    forall n | n in Attractor(ab, A) ensures n in A.inner || n == A.U {
      var k: nat :| n in Stage(ab, A, k);
      StageInner(ab, A, k);
    }
  }

  lemma {:induction false} StageInner<N>(ab: Alphabet, A: Automaton<N>, k: nat)
    ensures forall n :: n in Stage(ab, A, k) ==> n in A.inner || n == A.U
  {
    if k > 0 { StageInner(ab, A, k - 1); }
  }
}
