/**
 The language of a marking graph: which markings a word of visible labels can
 weakly reach, and the subset construction as a function on words.
*/
module Language {
  import opened Lists
  import opened Markings
  import opened Reachability

  /** The successor that the first edge of m labelled l leads to. */
  function FirstSuccessor(mk: InnerMarking, l: nat, from: nat): (r: Option<nat>)
    requires |mk.labels| == |mk.successors| && from <= |mk.labels|
    ensures r.Some? ==> exists i :: from <= i < |mk.labels| && mk.labels[i] == l && mk.successors[i] == r.value
    ensures r.None? <==> forall i :: from <= i < |mk.labels| ==> mk.labels[i] != l
    decreases |mk.labels| - from
  {
    if from == |mk.labels| then None
    else if mk.labels[from] == l then Some(mk.successors[from])
    else FirstSuccessor(mk, l, from + 1)
  }

  /** A step of the graph as the construction sees it: of several edges with
      the same visible label only the first counts.  With full set, all count. */
  ghost predicate Step(g: seq<InnerMarking>, full: bool, m: nat, l: nat, m': nat)
    requires WellFormed(g)
  {
    m < |g| && m' < |g| && if full || l == TAU then HasEdge(g, m, l, m') else FirstSuccessor(g[m], l, 0) == Some(m')
  }

  /** The visible part of a sequence of labels. */
  function Visible(q: seq<nat>): seq<nat> {
    if q == [] then []
    else Visible(q[..|q| - 1]) + if q[|q| - 1] == TAU then [] else [q[|q| - 1]]
  }

  /** A run from the initial marking through the markings p with the labels q. */
  ghost predicate Run(g: seq<InnerMarking>, full: bool, p: seq<nat>, q: seq<nat>)
    requires WellFormed(g)
  {
    && |p| == |q| + 1
    && p[0] == 0
    && forall i :: 0 <= i < |q| ==> Step(g, full, p[i], q[i], p[i + 1])
  }

  /** m can be reached by w, with tau-steps allowed anywhere. */
  ghost predicate WeaklyReaches(g: seq<InnerMarking>, full: bool, w: seq<nat>, m: nat)
    requires WellFormed(g)
  {
    exists p, q :: Run(g, full, p, q) && Visible(q) == w && p[|q|] == m
  }

  // ---------- the subset construction on words ----------

  datatype Location = Broken | Dead | Marks(marks: set<nat>)

  ghost function Targets(g: seq<InnerMarking>, S: set<nat>, l: nat): set<nat>
    requires WellFormed(g)
  {
    set m: nat, m': nat | m in S && m < |g| && m' < |g| && Step(g, false, m, l, m') :: m'
  }

  ghost function ClosureOf(g: seq<InnerMarking>, S: set<nat>): set<nat> {
    set m, m': nat | m in S && m' < |g| && Reach(TauSteps(g), m, m') :: m'
  }

  ghost predicate AnyBad(g: seq<InnerMarking>, S: set<nat>) {
    exists m :: m in S && BadReachable(g, m)
  }

  ghost function Initial(g: seq<InnerMarking>): Location {
    if BadReachable(g, 0) then Broken else Marks(Closure(g, 0))
  }

  ghost function Next(g: seq<InnerMarking>, loc: Location, l: nat): Location
    requires WellFormed(g)
  {
    match loc
    case Broken => Broken
    case Dead => Dead
    case Marks(S) =>
      var T := Targets(g, S, l);
      if AnyBad(g, T) then Broken
      else if T == {} then Dead
      else Marks(ClosureOf(g, T))
  }

  ghost function Locate(g: seq<InnerMarking>, w: seq<nat>): Location
    requires WellFormed(g)
  {
    if w == [] then Initial(g) else Next(g, Locate(g, w[..|w| - 1]), w[|w| - 1])
  }

  // ---------- the sets that words weakly reach ----------

  ghost function WeakSet(g: seq<InnerMarking>, w: seq<nat>): set<nat>
    requires WellFormed(g)
  {
    if w == [] then Closure(g, 0)
    else ClosureOf(g, Targets(g, WeakSet(g, w[..|w| - 1]), w[|w| - 1]))
  }

  ghost predicate VisibleWord(w: seq<nat>) {
    forall i :: 0 <= i < |w| ==> 2 <= w[i]
  }

  lemma RunExtend(g: seq<InnerMarking>, full: bool, p: seq<nat>, q: seq<nat>, l: nat, m: nat)
    requires WellFormed(g) && Run(g, full, p, q) && Step(g, full, p[|q|], l, m)
    ensures Run(g, full, p + [m], q + [l])
    ensures Visible(q + [l]) == Visible(q) + if l == TAU then [] else [l]
    ensures (p + [m])[|q + [l]|] == m
  {
    hide Step;
    var p', q' := p + [m], q + [l];
    assert q'[..|q'| - 1] == q;
    forall i | 0 <= i < |q'| ensures Step(g, full, p'[i], q'[i], p'[i + 1]) {
      if i < |q| { assert p'[i] == p[i] && p'[i + 1] == p[i + 1] && q'[i] == q[i]; }
    }
  }

  lemma TauIsStep(g: seq<InnerMarking>, m: nat, m': nat)
    requires WellFormed(g) && (m, m') in TauSteps(g)
    ensures Step(g, false, m, TAU, m')
  {
  }

  lemma WeaklyTau(g: seq<InnerMarking>, w: seq<nat>, m: nat, m': nat)
    requires WellFormed(g) && WeaklyReaches(g, false, w, m) && Reach(TauSteps(g), m, m')
    ensures WeaklyReaches(g, false, w, m')
  {
    hide Visible, Step;
    var path :| Path(TauSteps(g), path, m, m');
    var p, q :| Run(g, false, p, q) && Visible(q) == w && p[|q|] == m;
    var i := 0;
    while i < |path| - 1
      invariant 0 <= i < |path|
      invariant |p| == |q| + 1 && Run(g, false, p, q) && Visible(q) == w && p[|q|] == path[i]
    {
      assert (path[i], path[i + 1]) in TauSteps(g);
      TauIsStep(g, path[i], path[i + 1]);
      RunExtend(g, false, p, q, TAU, path[i + 1]);
      p, q := p + [path[i + 1]], q + [TAU];
      RunLength(g, false, p, q);
      i := i + 1;
    }
  }

  lemma RunLength(g: seq<InnerMarking>, full: bool, p: seq<nat>, q: seq<nat>)
    requires WellFormed(g) && Run(g, full, p, q)
    ensures |p| == |q| + 1
  {
    hide Step;
  }

  lemma WeaklyEmpty(g: seq<InnerMarking>)
    requires WellFormed(g)
    ensures WeaklyReaches(g, false, [], 0)
  {
    assert Run(g, false, [0], []);
    assert Visible([]) == [];
  }

  lemma WeaklyStep(g: seq<InnerMarking>, w: seq<nat>, m: nat, l: nat, m': nat)
    requires WellFormed(g) && WeaklyReaches(g, false, w, m) && l != TAU && Step(g, false, m, l, m')
    ensures WeaklyReaches(g, false, w + [l], m')
  {
    hide Step, Visible;
    var p, q :| Run(g, false, p, q) && Visible(q) == w && p[|q|] == m;
    RunExtend(g, false, p, q, l, m');
  }

  lemma {:induction false} WeakSetSound(g: seq<InnerMarking>, w: seq<nat>, m: nat)
    requires WellFormed(g) && VisibleWord(w) && m in WeakSet(g, w)
    ensures WeaklyReaches(g, false, w, m)
  {
    hide Reach, TauSteps, WeaklyReaches, Step;
    if w == [] {
      WeaklyEmpty(g);
      WeaklyTau(g, [], 0, m);
    } else {
      var front, l := w[..|w| - 1], w[|w| - 1];
      var t :| t in Targets(g, WeakSet(g, front), l) && Reach(TauSteps(g), t, m);
      var s :| s in WeakSet(g, front) && Step(g, false, s, l, t);
      WeakSetSound(g, front, s);
      WeaklyStep(g, front, s, l, t);
      assert front + [l] == w;
      WeaklyTau(g, w, t, m);
    }
  }

  lemma WeakSetTau(g: seq<InnerMarking>, w: seq<nat>, m: nat, m': nat)
    requires WellFormed(g) && m in WeakSet(g, w) && Step(g, false, m, TAU, m')
    ensures m' in WeakSet(g, w)
  {
    hide Reach;
    ReachEdge(TauSteps(g), m, m');
    if w == [] {
      ReachTrans(TauSteps(g), 0, m, m');
    } else {
      var t :| t in Targets(g, WeakSet(g, w[..|w| - 1]), w[|w| - 1]) && Reach(TauSteps(g), t, m);
      ReachTrans(TauSteps(g), t, m, m');
    }
  }

  lemma WeakSetStep(g: seq<InnerMarking>, w: seq<nat>, m: nat, l: nat, m': nat)
    requires WellFormed(g) && m in WeakSet(g, w) && Step(g, false, m, l, m')
    ensures m' in WeakSet(g, w + [l])
  {
    hide Reach;
    assert (w + [l])[..|w|] == w;
    ReachRefl(TauSteps(g), m');
    assert m' in Targets(g, WeakSet(g, w), l);
  }

  lemma {:induction false} WeakSetComplete(g: seq<InnerMarking>, p: seq<nat>, q: seq<nat>)
    requires WellFormed(g) && |g| > 0 && Run(g, false, p, q)
    ensures p[|q|] in WeakSet(g, Visible(q))
  {
    hide Reach, Step, WeakSet;
    if q == [] {
      InitialInside(g);
    } else {
      var n := |q| - 1;
      assert Run(g, false, p[..|p| - 1], q[..n]) by {
        forall i | 0 <= i < n ensures Step(g, false, p[..|p| - 1][i], q[..n][i], p[..|p| - 1][i + 1]) { }
      }
      WeakSetComplete(g, p[..|p| - 1], q[..n]);
      assert Step(g, false, p[n], q[n], p[n + 1]);
      if q[n] == TAU {
        assert Visible(q) == Visible(q[..n]);
        WeakSetTau(g, Visible(q[..n]), p[n], p[n + 1]);
      } else {
        assert Visible(q) == Visible(q[..n]) + [q[n]];
        WeakSetStep(g, Visible(q[..n]), p[n], q[n], p[n + 1]);
      }
    }
  }

  lemma InitialInside(g: seq<InnerMarking>)
    requires WellFormed(g) && |g| > 0
    ensures 0 in WeakSet(g, [])
  {
    ReachRefl(TauSteps(g), 0);
  }

  /** The sets computed word by word are exactly the weakly reachable markings. */
  lemma WeakSetExact(g: seq<InnerMarking>, w: seq<nat>, m: nat)
    requires WellFormed(g) && |g| > 0 && VisibleWord(w)
    ensures m in WeakSet(g, w) <==> WeaklyReaches(g, false, w, m)
  {
    if m in WeakSet(g, w) { WeakSetSound(g, w, m); }
    if WeaklyReaches(g, false, w, m) {
      var p, q :| Run(g, false, p, q) && Visible(q) == w && p[|q|] == m;
      WeakSetComplete(g, p, q);
    }
  }

  // ---------- the subset construction is correct for every word ----------

  /** Some prefix of w weakly reaches a bad marking. */
  ghost predicate BoundBroken(g: seq<InnerMarking>, w: seq<nat>)
    requires WellFormed(g)
  {
    exists k: nat, b: nat :: k <= |w| && b < |g| && g[b].isBad && WeaklyReaches(g, false, w[..k], b)
  }

  ghost predicate BadInWeak(g: seq<InnerMarking>, w: seq<nat>, k: nat)
    requires WellFormed(g) && k <= |w|
  {
    exists b: nat :: b < |g| && g[b].isBad && b in WeakSet(g, w[..k])
  }

  lemma BrokenByWeakSets(g: seq<InnerMarking>, w: seq<nat>)
    requires WellFormed(g) && |g| > 0 && VisibleWord(w)
    ensures BoundBroken(g, w) <==> exists k: nat :: k <= |w| && BadInWeak(g, w, k)
  {
    hide WeaklyReaches, WeakSet;
    forall k: nat | k <= |w| ensures BadInWeak(g, w, k) <==>
      exists b: nat :: b < |g| && g[b].isBad && WeaklyReaches(g, false, w[..k], b) {
      forall b: nat ensures b in WeakSet(g, w[..k]) <==> WeaklyReaches(g, false, w[..k], b) {
        WeakSetExact(g, w[..k], b);
      }
    }
  }

  /** A closure contains a bad marking exactly if one is tau-reachable. */
  lemma ClosureBad(g: seq<InnerMarking>, T: set<nat>)
    ensures AnyBad(g, T) <==> exists b: nat :: b < |g| && g[b].isBad && b in ClosureOf(g, T)
  {
    hide Reach, TauSteps;
  }

  lemma {:induction false} LocateCorrectAux(g: seq<InnerMarking>, w: seq<nat>)
    requires WellFormed(g) && |g| > 0
    ensures Locate(g, w) == Broken <==> exists k: nat :: k <= |w| && BadInWeak(g, w, k)
    ensures Locate(g, w) == Dead ==> WeakSet(g, w) == {}
    ensures Locate(g, w).Marks? ==> WeakSet(g, w) != {} && Locate(g, w) == Marks(WeakSet(g, w))
  {
    hide Reach, TauSteps, Step;
    if w == [] {
      InitialInside(g);
      assert w[..0] == [];
      assert BadInWeak(g, w, 0) <==> BadReachable(g, 0);
    } else {
      var n := |w| - 1;
      var front, l := w[..n], w[n];
      LocateCorrectAux(g, front);
      forall k: nat | k <= n ensures BadInWeak(g, w, k) <==> BadInWeak(g, front, k) {
        assert front[..k] == w[..k];
      }
      assert w[..n + 1] == w;
      var T := Targets(g, WeakSet(g, front), l);
      ClosureBad(g, T);
      if Locate(g, front) == Broken {
        var k: nat :| k <= n && BadInWeak(g, front, k);
        assert BadInWeak(g, w, k);
      } else {
        assert BadInWeak(g, w, n + 1) <==> AnyBad(g, T);
        NonEmptyClosure(g, T);
        assert (exists k: nat :: k <= n + 1 && BadInWeak(g, w, k)) <==> BadInWeak(g, w, n + 1);
      }
    }
  }

  lemma NonEmptyClosure(g: seq<InnerMarking>, T: set<nat>)
    ensures (forall t :: t in T ==> t < |g|) && T != {} ==> ClosureOf(g, T) != {}
    ensures T == {} ==> ClosureOf(g, T) == {}
  {
    if (forall t :: t in T ==> t < |g|) && T != {} {
      var t :| t in T;
      ReachRefl(TauSteps(g), t);
      assert t in ClosureOf(g, T);
    }
  }

  /** The subset construction is correct for every word: it is at Broken exactly
      if a prefix can break the bound, otherwise at Dead exactly if no marking is
      weakly reachable, and otherwise at the set of weakly reachable markings. */
  lemma LocateCorrect(g: seq<InnerMarking>, w: seq<nat>)
    requires WellFormed(g) && |g| > 0 && VisibleWord(w)
    ensures Locate(g, w) == Broken <==> BoundBroken(g, w)
    ensures !BoundBroken(g, w) ==> (Locate(g, w) == Dead <==> forall m: nat :: !WeaklyReaches(g, false, w, m))
    ensures !BoundBroken(g, w) && Locate(g, w) != Dead ==>
              Locate(g, w).Marks? && forall m: nat :: m in Locate(g, w).marks <==> WeaklyReaches(g, false, w, m)
  {
    hide WeaklyReaches, WeakSet, Locate, BadInWeak, BoundBroken;
    LocateCorrectAux(g, w);
    BrokenByWeakSets(g, w);
    forall m: nat ensures m in WeakSet(g, w) <==> WeaklyReaches(g, false, w, m) { WeakSetExact(g, w, m); }
  }

  // ---------- several edges with the same visible label ----------

  ghost predicate WordOver(ab: Alphabet, w: seq<nat>) {
    forall i :: 0 <= i < |w| ==> ab.Visible(w[i])
  }

  /** No marking has two edges with the same visible label to different successors. */
  ghost predicate Deterministic(g: seq<InnerMarking>, ab: Alphabet)
    requires WellFormed(g)
  {
    forall m, i, j |
      && 0 <= m < |g| && 0 <= i < |g[m].labels| && 0 <= j < |g[m].labels|
      && g[m].labels[i] == g[m].labels[j] && ab.Visible(g[m].labels[i])
      :: g[m].successors[i] == g[m].successors[j]
  }

  /** The construction sees every visible step of the graph exactly if the graph is deterministic. */
  lemma FirstMatchExact(g: seq<InnerMarking>, ab: Alphabet)
    requires WellFormed(g)
    ensures Deterministic(g, ab) <==>
            forall m, l, m' | ab.Visible(l) :: Step(g, true, m, l, m') <==> Step(g, false, m, l, m')
  {
    if Deterministic(g, ab) {
      forall m, l, m' | ab.Visible(l) ensures Step(g, true, m, l, m') <==> Step(g, false, m, l, m') {
        FirstIsAny(g, ab, m, l, m');
      }
    }
    if forall m, l, m' | ab.Visible(l) :: Step(g, true, m, l, m') <==> Step(g, false, m, l, m') {
      forall m, i, j |
        && 0 <= m < |g| && 0 <= i < |g[m].labels| && 0 <= j < |g[m].labels|
        && g[m].labels[i] == g[m].labels[j] && ab.Visible(g[m].labels[i])
        ensures g[m].successors[i] == g[m].successors[j]
      {
        var l := g[m].labels[i];
        assert Step(g, true, m, l, g[m].successors[i]);
        assert Step(g, true, m, l, g[m].successors[j]);
        assert Step(g, false, m, l, g[m].successors[i]);
        assert Step(g, false, m, l, g[m].successors[j]);
      }
    }
  }

  lemma FirstIsAny(g: seq<InnerMarking>, ab: Alphabet, m: nat, l: nat, m': nat)
    requires WellFormed(g) && Deterministic(g, ab) && ab.Visible(l)
    ensures Step(g, true, m, l, m') <==> Step(g, false, m, l, m')
  {
    if m < |g| {
      var r := FirstSuccessor(g[m], l, 0);
    }
  }

  /** Every label of a run is silent or a letter of its word. */
  lemma {:induction false} VisibleLetters(q: seq<nat>, i: nat)
    requires i < |q|
    ensures q[i] == TAU || q[i] in Visible(q)
  {
    if i < |q| - 1 {
      VisibleLetters(q[..|q| - 1], i);
    }
  }

  /** A run over the visible labels is one whether or not all the edges count. */
  lemma RunEitherWay(g: seq<InnerMarking>, ab: Alphabet, p: seq<nat>, q: seq<nat>)
    requires WellFormed(g) && Deterministic(g, ab) && WordOver(ab, Visible(q))
    ensures Run(g, true, p, q) <==> Run(g, false, p, q)
  {
    hide Visible, Deterministic, WellFormed, HasEdge;
    FirstMatchExact(g, ab);
    forall i | 0 <= i < |q| && |p| == |q| + 1
      ensures Step(g, true, p[i], q[i], p[i + 1]) <==> Step(g, false, p[i], q[i], p[i + 1])
    {
      VisibleLetters(q, i);
      assert q[i] != TAU ==> ab.Visible(q[i]);
    }
  }

  /** In a deterministic graph the words' markings are those of the graph itself. */
  lemma DeterministicReaches(g: seq<InnerMarking>, ab: Alphabet, w: seq<nat>, m: nat)
    requires WellFormed(g) && Deterministic(g, ab) && WordOver(ab, w)
    ensures WeaklyReaches(g, true, w, m) <==> WeaklyReaches(g, false, w, m)
  {
    hide Run, Visible, Deterministic;
    forall p, q | Visible(q) == w ensures Run(g, true, p, q) <==> Run(g, false, p, q) {
      RunEitherWay(g, ab, p, q);
    }
  }

  /** A marking with two edges labelled 2, to markings 1 and 2. */
  function TwoEdges(): (g: seq<InnerMarking>)
    ensures WellFormed(g) && |g| == 3
  {
    [InnerMarking([2, 2], [1, 2], false, false), InnerMarking([], [], false, false), InnerMarking([], [], false, false)]
  }

  lemma TwoEdgesSilent(x: nat, y: nat)
    ensures Reach(TauSteps(TwoEdges()), x, y) <==> x == y
  {
    var E := TauSteps(TwoEdges());
    assert forall m: nat, m': nat :: !HasEdge(TwoEdges(), m, TAU, m');
    assert E == {};
    if Reach(E, x, y) { ReachStaysInClosed(E, {x}, x, y); }
    ReachRefl(E, x);
  }

  lemma TwoEdgesFirst()
    ensures WeakSet(TwoEdges(), [2]) == {1}
  {
    hide Reach, TauSteps;
    var g := TwoEdges();
    forall x: nat, y: nat ensures Reach(TauSteps(g), x, y) <==> x == y { TwoEdgesSilent(x, y); }
    assert WeakSet(g, []) == {0};
    assert [2][..0] == [];
    assert FirstSuccessor(g[0], 2, 0) == Some(1);
    assert Step(g, false, 0, 2, 1);
    assert Targets(g, {0}, 2) == {1};
    assert ClosureOf(g, {1}) == {1} by { assert Reach(TauSteps(g), 1, 1); }
  }

  /** Without determinism the construction can miss markings: the word 2
      reaches marking 2, but the search stops at the edge to marking 1. */
  lemma NondeterminismMissed()
    ensures !Deterministic(TwoEdges(), Alphabet(1, 0))
    ensures WeaklyReaches(TwoEdges(), true, [2], 2) && !WeaklyReaches(TwoEdges(), false, [2], 2)
  {
    hide Reach, TauSteps, WeakSet;
    var g := TwoEdges();
    assert g[0].labels[0] == g[0].labels[1] == 2;
    TwoEdgesRun();
    TwoEdgesFirst();
    WeakSetExact(g, [2], 2);
  }

  lemma TwoEdgesRun()
    ensures WeaklyReaches(TwoEdges(), true, [2], 2)
  {
    var g := TwoEdges();
    TwoEdgesStep();
    hide TwoEdges, Step;
    assert Run(g, true, [0, 2], [2]);
    assert [2][..0] == [];
    assert Visible([2]) == [2];
    assert [0, 2][|[2]|] == 2;
  }

  lemma TwoEdgesStep()
    ensures Step(TwoEdges(), true, 0, 2, 2)
  {
    var g := TwoEdges();
    assert g[0].labels[1] == 2 && g[0].successors[1] == 2;
  }
}
