/** The tau-closure of a marking and its strongly connected components. */
module TauClosures {
  import opened Components
  import opened Lists
  import opened Markings
  import opened Reachability

  predicate OnStack(inStack: map<nat, bool>, m: nat) {
    m in inStack && inStack[m]
  }

  /** The marking lists are the components as ascending lists. */
  ghost predicate Represents(lists: seq<seq<nat>>, comps: seq<set<nat>>) {
    && |lists| == |comps|
    && forall i :: 0 <= i < |lists| ==> Ascending(lists[i]) && SetOf(lists[i]) == comps[i]
  }

  lemma RepresentsConcat(a: seq<seq<nat>>, ca: seq<set<nat>>, b: seq<seq<nat>>, cb: seq<set<nat>>)
    requires Represents(a, ca) && Represents(b, cb)
    ensures Represents(a + b, ca + cb)
  {
  }

  lemma TauNeighbour(g: seq<InnerMarking>, m: nat, i: nat)
    requires WellFormed(g) && m < |g| && i < |g[m].labels| && g[m].labels[i] == TAU
    ensures (m, g[m].successors[i]) in TauSteps(g)
  {
    assert HasEdge(g, m, TAU, g[m].successors[i]);
  }

  /** A snapshot of the helper structures of the search. */
  datatype Helpers = Helpers(templist: seq<nat>, dfs: map<nat, int>, lowlink: map<nat, int>, maxdfs: int,
                             S: seq<nat>, inStack: map<nat, bool>, comps: seq<set<nat>>)
  {
    function Core(): Search<nat> {
      Search(dfs, S, comps)
    }
  }

  /** The helper structures agree with each other. */
  ghost predicate Consistent(g: seq<InnerMarking>, t: Helpers) {
    && (forall x :: x in t.templist <==> x in t.dfs)
    && (forall x :: x in t.S <==> OnStack(t.inStack, x))
    && (forall x :: x in t.dfs ==> x < |g| && x in t.lowlink)
    && 0 <= t.maxdfs
  }

  ghost predicate LowKept(t0: Helpers, t: Helpers) {
    forall x :: x in t0.dfs && x in t0.lowlink ==> x in t.lowlink && t.lowlink[x] == t0.lowlink[x]
  }

  ghost predicate NewGood(g: seq<InnerMarking>, t0: Helpers, t: Helpers) {
    forall x :: x in t.dfs && x !in t0.dfs && x < |g| ==> !g[x].isBad
  }

  /** The lists represent the components completed since t0. */
  ghost predicate Listed(t0: Helpers, t: Helpers, lists: seq<seq<nat>>) {
    |t0.comps| <= |t.comps| && Represents(lists, t.comps[|t0.comps|..])
  }

  /** The visit of m, begun in t0, has dealt with the neighbours in seen. */
  ghost predicate Scanning(g: seq<InnerMarking>, t0: Helpers, t: Helpers, gray: set<nat>, m: nat, lists: seq<seq<nat>>,
                           seen: set<nat>) {
    && Consistent(g, t)
    && m in t.lowlink
    && Scan(TauSteps(g), t0.Core(), t.Core(), gray, t0.maxdfs, t.maxdfs, m, t.lowlink[m], seen)
    && LowKept(t0, t)
    && NewGood(g, t0, t)
    && Listed(t0, t, lists)
  }

  /** The visit of m, begun in t0, is complete. */
  ghost predicate Visit(g: seq<InnerMarking>, t0: Helpers, t: Helpers, gray: set<nat>, m: nat, result: seq<seq<nat>>) {
    && Consistent(g, t)
    && m in t.lowlink
    && Done(TauSteps(g), t0.Core(), t.Core(), gray, t0.maxdfs, t.maxdfs, m, t.lowlink[m])
    && LowKept(t0, t)
    && NewGood(g, t0, t)
    && Listed(t0, t, result)
  }

  /** A visit of m may start in t. */
  ghost predicate Ready(g: seq<InnerMarking>, t: Helpers, gray: set<nat>, m: nat) {
    && Consistent(g, t)
    && Inv(TauSteps(g), t.Core(), gray, t.maxdfs)
    && m !in t.dfs
    && forall x :: x in gray ==> Reach(TauSteps(g), x, m)
  }

  function Entered(t: Helpers, m: nat): Helpers {
    Helpers(t.templist + [m], t.dfs[m := t.maxdfs], t.lowlink[m := t.maxdfs], t.maxdfs + 1, t.S + [m],
            t.inStack[m := true], t.comps)
  }

  lemma EnterConsistent(g: seq<InnerMarking>, t: Helpers, m: nat)
    requires Consistent(g, t) && m < |g|
    ensures Consistent(g, Entered(t, m))
  {
    var t' := Entered(t, m);
    assert forall x :: x in t'.templist <==> x in t.templist || x == m;
    assert forall x :: x in t'.S <==> x in t.S || x == m;
    assert forall x :: OnStack(t'.inStack, x) <==> OnStack(t.inStack, x) || x == m;
  }

  lemma StartScan(g: seq<InnerMarking>, t: Helpers, gray: set<nat>, m: nat)
    requires Ready(g, t, gray, m) && m < |g| && !g[m].isBad
    ensures Scanning(g, t, Entered(t, m), gray, m, [], {})
  {
    hide Consistent, Scan, Inv, Reach, TauSteps;
    EnterConsistent(g, t, m);
    assert 0 <= t.maxdfs by { ConsistentMax(g, t); }
    Enter(TauSteps(g), t.Core(), gray, t.maxdfs, m);
    assert t.comps[|t.comps|..] == [];
  }

  lemma ConsistentMax(g: seq<InnerMarking>, t: Helpers)
    requires Consistent(g, t)
    ensures 0 <= t.maxdfs
  {
    hide OnStack;
  }

  function Lowered(t: Helpers, m: nat, x: int): Helpers
    requires m in t.lowlink
  {
    t.(lowlink := t.lowlink[m := Min(t.lowlink[m], x)])
  }

  /** m is not among the vertices visited before its own visit. */
  lemma ScanFresh(g: seq<InnerMarking>, t0: Helpers, t: Helpers, gray: set<nat>, m: nat, lists: seq<seq<nat>>,
                  seen: set<nat>)
    requires Scanning(g, t0, t, gray, m, lists, seen)
    ensures m !in t0.dfs && m in t.dfs && t.dfs[m] == t0.maxdfs
    ensures m in t.lowlink
    ensures forall x :: x in t0.dfs ==> x in t.dfs
  {
    hide Consistent, Inv, Crossing, NewReached, LowWitness, Reach, TauSteps;
  }

  lemma NextSeen(g: seq<InnerMarking>, t0: Helpers, t: Helpers, gray: set<nat>, m: nat, lists: seq<seq<nat>>,
                 seen: set<nat>, w: nat)
    requires Scanning(g, t0, t, gray, m, lists, seen)
    requires (m, w) in TauSteps(g) && w in t.dfs
    ensures OnStack(t.inStack, w) ==> Scanning(g, t0, Lowered(t, m, t.dfs[w]), gray, m, lists, seen + {w})
    ensures !OnStack(t.inStack, w) ==> Scanning(g, t0, t, gray, m, lists, seen + {w})
  {
    hide Scan, Reach, TauSteps, Represents;
    ScanFresh(g, t0, t, gray, m, lists, seen);
    if w in t.S {
      SeenOnStack(TauSteps(g), t0.Core(), t.Core(), gray, t0.maxdfs, t.maxdfs, m, t.lowlink[m], seen, w);
    } else {
      SeenDone(TauSteps(g), t0.Core(), t.Core(), gray, t0.maxdfs, t.maxdfs, m, t.lowlink[m], seen, w);
    }
  }

  lemma ReadyForChild(g: seq<InnerMarking>, t0: Helpers, t: Helpers, gray: set<nat>, m: nat, lists: seq<seq<nat>>,
                      seen: set<nat>, w: nat)
    requires Scanning(g, t0, t, gray, m, lists, seen)
    requires (m, w) in TauSteps(g) && w !in t.dfs
    ensures Ready(g, t, gray + {m}, w)
  {
    GrayReaches(TauSteps(g), t0.Core(), t.Core(), gray, t0.maxdfs, t.maxdfs, m, t.lowlink[m], seen, w);
    hide Consistent, Inv, Crossing, NewReached, LowWitness, Reach, TauSteps, Listed, SeenOK, LowKept, NewGood;
  }

  lemma VisitExtends(g: seq<InnerMarking>, t: Helpers, t': Helpers, gray: set<nat>, w: nat, temp: seq<seq<nat>>)
    requires Visit(g, t, t', gray, w, temp)
    ensures t.comps <= t'.comps && t.S <= t'.S
    ensures forall x :: x in t.dfs ==> x in t'.dfs
    ensures w in t'.dfs
  {
    hide Consistent, Inv, Crossing, NewReached, LowWitness, Reach, TauSteps;
  }

  lemma TakeConsistent(g: seq<InnerMarking>, t0: Helpers, t: Helpers, t': Helpers, m: nat, w: nat)
    requires Consistent(g, t') && m in t.dfs && m in t.lowlink && m !in t0.dfs && m in t'.lowlink && w in t'.lowlink
    requires forall x :: x in t0.dfs ==> x in t.dfs
    requires LowKept(t0, t) && LowKept(t, t')
    requires NewGood(g, t0, t) && NewGood(g, t, t')
    ensures Consistent(g, Lowered(t', m, t'.lowlink[w]))
    ensures LowKept(t0, Lowered(t', m, t'.lowlink[w]))
    ensures NewGood(g, t0, Lowered(t', m, t'.lowlink[w]))
  {
    hide OnStack;
  }

  lemma TakeChild(g: seq<InnerMarking>, t0: Helpers, t: Helpers, t': Helpers, gray: set<nat>, m: nat,
                  lists: seq<seq<nat>>, seen: set<nat>, w: nat, temp: seq<seq<nat>>)
    requires Scanning(g, t0, t, gray, m, lists, seen)
    requires (m, w) in TauSteps(g) && w !in t.dfs
    requires Visit(g, t, t', gray + {m}, w, temp)
    ensures m in t'.lowlink && w in t'.lowlink
    ensures Scanning(g, t0, Lowered(t', m, t'.lowlink[w]), gray, m, lists + temp, seen + {w})
  {
    hide Scan, Done, Reach, TauSteps, Consistent, NewGood, Listed;
    ScanFresh(g, t0, t, gray, m, lists, seen);
    VisitExtends(g, t, t', gray + {m}, w, temp);
    assert m in t'.lowlink && t'.lowlink[m] == t.lowlink[m];
    AfterChild(TauSteps(g), t0.Core(), t.Core(), t'.Core(), gray, t0.maxdfs, t.maxdfs, t'.maxdfs,
               m, t.lowlink[m], seen, w, t'.lowlink[w]);
    TakeLists(t0, t, t', lists, temp);
    TakeConsistent(g, t0, t, t', m, w);
    ListedLowered(t0, t', lists + temp, m, t'.lowlink[w]);
  }

  lemma ListedLowered(t0: Helpers, t: Helpers, lists: seq<seq<nat>>, m: nat, x: int)
    requires Listed(t0, t, lists) && m in t.lowlink
    ensures Listed(t0, Lowered(t, m, x), lists)
  {
    hide Represents;
  }

  lemma TakeLists(t0: Helpers, t: Helpers, t': Helpers, lists: seq<seq<nat>>, temp: seq<seq<nat>>)
    requires Listed(t0, t, lists) && Listed(t, t', temp) && t.comps <= t'.comps
    ensures Listed(t0, t', lists + temp)
  {
    hide Represents;
    RepresentsConcat(lists, t.comps[|t0.comps|..], temp, t'.comps[|t.comps|..]);
    assert t'.comps[|t0.comps|..] == t.comps[|t0.comps|..] + t'.comps[|t.comps|..];
  }

  /** m is not the root of its component. */
  lemma KeepVisit(g: seq<InnerMarking>, t0: Helpers, t: Helpers, gray: set<nat>, m: nat, lists: seq<seq<nat>>,
                  seen: set<nat>)
    requires Scanning(g, t0, t, gray, m, lists, seen)
    requires AllSeen(TauSteps(g), m, seen)
    requires m in t.dfs && t.lowlink[m] != t.dfs[m]
    ensures Visit(g, t0, t, gray, m, lists)
  {
    hide Consistent, Inv, Crossing, NewReached, LowWitness, Reach, TauSteps, NewGood, LowKept, Listed, AllSeen, SeenOK;
    FinishKeep(TauSteps(g), t0.Core(), t.Core(), gray, t0.maxdfs, t.maxdfs, m, t.lowlink[m], seen);
  }

  lemma RootPosition(g: seq<InnerMarking>, t0: Helpers, t: Helpers, gray: set<nat>, m: nat, lists: seq<seq<nat>>,
                     seen: set<nat>)
    requires Scanning(g, t0, t, gray, m, lists, seen)
    ensures |t0.S| < |t.S| && t.S[|t0.S|] == m && Distinct(t.S)
    ensures forall x :: x in t.S <==> OnStack(t.inStack, x)
  {
    hide GrayOK, BlackOK, CompsOK, Crossing, NewReached, LowWitness, Reach, TauSteps, NewGood, LowKept, Listed, SeenOK;
    assert t.Core().stack[|t0.S|] == m;
  }

  function Popped(t: Helpers, h: nat, inStack: map<nat, bool>): Helpers
    requires h <= |t.S|
  {
    t.(S := t.S[..h], inStack := inStack, comps := t.comps + [SetOf(t.S[h..])])
  }

  /** m is the root of its component, which is popped. */
  lemma PopVisit(g: seq<InnerMarking>, t0: Helpers, t: Helpers, gray: set<nat>, m: nat, lists: seq<seq<nat>>,
                 seen: set<nat>,
                 inStack: map<nat, bool>, SCC: seq<nat>)
    requires Scanning(g, t0, t, gray, m, lists, seen)
    requires AllSeen(TauSteps(g), m, seen)
    requires m in t.dfs && t.lowlink[m] == t.dfs[m]
    requires |t0.S| <= |t.S|
    requires forall x :: x in t.S[..|t0.S|] <==> OnStack(inStack, x)
    requires Ascending(SCC) && SetOf(SCC) == SetOf(t.S[|t0.S|..])
    ensures Visit(g, t0, Popped(t, |t0.S|, inStack), gray, m, lists + [SCC])
  {
    hide Scan, Done, Reach, TauSteps, AllSeen, Represents;
    ScanFresh(g, t0, t, gray, m, lists, seen);
    FinishPop(TauSteps(g), t0.Core(), t.Core(), gray, t0.maxdfs, t.maxdfs, m, t.lowlink[m], seen);
    var t' := Popped(t, |t0.S|, inStack);
    assert t'.Core() == Pop(t.Core(), |t0.S|);
    PopLists(t0.comps, t.comps, SetOf(t.S[|t0.S|..]), lists, SCC);
  }

  lemma PopLists(c0: seq<set<nat>>, c: seq<set<nat>>, C: set<nat>, lists: seq<seq<nat>>, SCC: seq<nat>)
    requires |c0| <= |c| && Represents(lists, c[|c0|..]) && Ascending(SCC) && SetOf(SCC) == C
    ensures Represents(lists + [SCC], (c + [C])[|c0|..])
  {
    assert (c + [C])[|c0|..] == c[|c0|..] + [C];
    RepresentsConcat(lists, c[|c0|..], [SCC], [C]);
  }

  lemma VisitedIffNumbered(g: seq<InnerMarking>, t0: Helpers, t: Helpers, gray: set<nat>, m: nat, lists: seq<seq<nat>>,
                           seen: set<nat>)
    requires Scanning(g, t0, t, gray, m, lists, seen)
    ensures forall x :: x in t.templist <==> x in t.dfs
  {
    hide OnStack, Scan;
  }

  lemma BadHere(g: seq<InnerMarking>, m: nat)
    requires m < |g| && g[m].isBad
    ensures BadReachable(g, m)
  {
    ReachRefl(TauSteps(g), m);
  }

  lemma BadThrough(g: seq<InnerMarking>, m: nat, w: nat)
    requires (m, w) in TauSteps(g) && BadReachable(g, w)
    ensures BadReachable(g, m)
  {
    hide Reach, TauSteps;
    var b: nat :| b < |g| && g[b].isBad && Reach(TauSteps(g), w, b);
    ReachEdge(TauSteps(g), m, w);
    ReachTrans(TauSteps(g), m, w, b);
  }

  /** The neighbours that the first i successor entries of m contribute. */
  ghost predicate SeenUpTo(g: seq<InnerMarking>, m: nat, i: nat, seen: set<nat>) {
    m < |g| && forall j :: 0 <= j < i && j < |g[m].labels| && j < |g[m].successors| && g[m].labels[j] == TAU ==>
      g[m].successors[j] in seen
  }

  ghost function Unvisited(n: nat, dfs: map<nat, int>): set<nat> {
    set x: nat | x < n && x !in dfs
  }

  lemma UnvisitedShrinks(n: nat, dfs: map<nat, int>, dfs': map<nat, int>, m: nat)
    requires m < n && m !in dfs && m in dfs' && forall x :: x in dfs ==> x in dfs'
    ensures Unvisited(n, dfs') < Unvisited(n, dfs)
  {
    assert m in Unvisited(n, dfs) && m !in Unvisited(n, dfs');
  }

  lemma SeenNothing(g: seq<InnerMarking>, m: nat)
    requires m < |g|
    ensures SeenUpTo(g, m, 0, {})
  {
  }

  lemma SeenNext(g: seq<InnerMarking>, m: nat, i: nat, seen: set<nat>)
    requires m < |g| && i < |g[m].labels| && i < |g[m].successors|
    requires exists old_ :: SeenUpTo(g, m, i, old_) && old_ <= seen
    requires g[m].labels[i] == TAU ==> g[m].successors[i] in seen
    ensures SeenUpTo(g, m, i + 1, seen)
  {
  }

  lemma SeenEverything(g: seq<InnerMarking>, m: nat, i: nat, seen: set<nat>)
    requires WellFormed(g) && m < |g| && SeenUpTo(g, m, i, seen) && i == |g[m].successors|
    ensures AllSeen(TauSteps(g), m, seen)
  {
  }

  ghost function SetsOf(lists: seq<seq<nat>>): (sets: seq<set<nat>>)
    ensures |sets| == |lists|
    ensures forall i :: 0 <= i < |lists| ==> sets[i] == SetOf(lists[i])
  {
    seq(|lists|, i requires 0 <= i < |lists| => SetOf(lists[i]))
  }

  /** comps are the strongly connected components of the vertices V, which no
      edge leaves; every component comes after the others it reaches. */
  ghost predicate Partition(E: set<(nat, nat)>, V: set<nat>, comps: seq<set<nat>>) {
    && (forall i :: 0 <= i < |comps| ==> IsComponent(E, comps[i]))
    && Disjoint(comps)
    && Ordered(E, comps)
    && (forall x :: x in V <==> InComps(comps, |comps|, x))
  }

  /** The partition as a list of ascending marking lists. */
  ghost predicate Decomposition(E: set<(nat, nat)>, V: set<nat>, lists: seq<seq<nat>>) {
    && (forall i :: 0 <= i < |lists| ==> Ascending(lists[i]))
    && Partition(E, V, SetsOf(lists))
  }

  /** A component is listed after every other component that it reaches. */
  lemma ReachedComponentsFirst(E: set<(nat, nat)>, V: set<nat>, lists: seq<seq<nat>>, i: nat, j: nat, x: nat, y: nat)
    requires Decomposition(E, V, lists)
    requires i < |lists| && j < |lists| && x in lists[i] && y in lists[j] && Reach(E, x, y)
    ensures j <= i
  {
    hide Reach, IsComponent, Ordered, Ascending;
    var sets := SetsOf(lists);
    InCompsAt(sets, i, i + 1, x);
    OrderedClosed(E, sets, i + 1, x, y);
    var k :| 0 <= k < i + 1 && y in sets[k];
    assert y in sets[j];
  }

  lemma NothingVisited(g: seq<InnerMarking>, t: Helpers, m: nat)
    requires t == Helpers([], map[], map[], 0, [], map[], [])
    ensures Ready(g, t, {}, m)
  {
    assert forall x :: OnStack(t.inStack, x) <==> x in t.S;
  }

  lemma VisitOver(g: seq<InnerMarking>, t0: Helpers, t: Helpers, m: nat, lists: seq<seq<nat>>)
    requires WellFormed(g) && m < |g|
    requires t0 == Helpers([], map[], map[], 0, [], map[], []) && Visit(g, t0, t, {}, m, lists)
    ensures t.dfs.Keys == Closure(g, m)
    ensures !BadReachable(g, m)
  {
    hide Reach, TauSteps, StackOK, GrayOK, BlackOK, CompsOK, Closed, Listed;
    var E := TauSteps(g);
    SearchOver(E, t.Core(), t.maxdfs);
    forall x: nat | Reach(E, m, x) ensures x in t.dfs {
      ReachStaysInClosed(E, t.dfs.Keys, m, x);
    }
    assert NewReached(E, t0.dfs, t.dfs, m);
  }

  lemma VisitPartition(g: seq<InnerMarking>, t0: Helpers, t: Helpers, m: nat, lists: seq<seq<nat>>)
    requires t0 == Helpers([], map[], map[], 0, [], map[], []) && Visit(g, t0, t, {}, m, lists)
    ensures Decomposition(TauSteps(g), t.dfs.Keys, lists)
  {
    hide Reach, TauSteps, StackOK, GrayOK, BlackOK, IsComponent, Disjoint, Ordered, InComps, Ascending, NewGood,
      LowKept, Crossing, NewReached, LowWitness;
    var E := TauSteps(g);
    SearchOver(E, t.Core(), t.maxdfs);
    assert t.comps[0..] == t.comps;
    assert SetsOf(lists) == t.comps;
  }

  class TauClosure {
    const markings: seq<InnerMarking>
    var templist: seq<nat>
    var dfs: map<nat, int>
    var lowlink: map<nat, int>
    var maxdfs: int
    var S: seq<nat>
    var inStack: map<nat, bool>
    ghost var comps: seq<set<nat>>

    constructor (markings: seq<InnerMarking>)
      ensures this.markings == markings
    {
      this.markings := markings;
    }

    ghost function Snapshot(): Helpers
      reads this
    {
      Helpers(templist, dfs, lowlink, maxdfs, S, inStack, comps)
    }

    /** Whether a marking was already visited. */
    method Visited(m: nat) returns (visited: bool)
      ensures visited <==> m in templist
    {
      visited := false;
      for i := 0 to |templist|
        invariant m !in templist[..i]
      {
        if templist[i] == m {
          return true;
        }
      }
    }

    /** Pops the stack down to and including m. */
    method PopComponent(m: nat, ghost h: nat) returns (SCC: seq<nat>)
      requires h < |S| && S[h] == m && Distinct(S)
      requires forall x :: x in S <==> OnStack(inStack, x)
      modifies this`S, this`inStack
      ensures S == old(S)[..h]
      ensures forall x :: x in S <==> OnStack(inStack, x)
      ensures Ascending(SCC) && SetOf(SCC) == SetOf(old(S)[h..])
    {
      SCC := [];
      var id := 0;
      var more := true;
      while more
        invariant h <= |S| <= |old(S)| && S == old(S)[..|S|]
        invariant more ==> h < |S|
        invariant !more ==> |S| == h
        invariant forall x :: x in S <==> OnStack(inStack, x)
        invariant |SCC| == |old(S)| - |S|
        invariant forall i :: 0 <= i < |SCC| ==> SCC[i] == old(S)[|old(S)| - 1 - i]
        decreases |S|, more
      {
        DropLast(S);
        ghost var before := inStack;
        id := S[|S| - 1];
        S := S[..|S| - 1];
        inStack := inStack[id := false];
        assert forall x :: OnStack(inStack, x) <==> OnStack(before, x) && x != id;
        SCC := SCC + [id];
        more := id != m;
      }
      SetOfReversed(SCC, old(S)[h..]);
      SortCorrect(SCC);
      SCC := Sort(SCC);
    }


    /** The components of the tau-closure of a marking, or None if the bound is broken there. */
    method ComputeClosureTarjan(id: nat) returns (result: Option<seq<seq<nat>>>)
      requires WellFormed(markings) && id < |markings|
      modifies this
      ensures result.None? <==> BadReachable(markings, id)
      ensures result.Some? ==> Decomposition(TauSteps(markings), Closure(markings, id), result.value)
    {
      hide BadReachable, TauSteps, Closure, Decomposition, Visit, Ready;
      dfs, lowlink, inStack := map[], map[], map[];
      templist := [];
      maxdfs := 0;
      S := [];
      comps := [];
      ghost var t0 := Snapshot();
      NothingVisited(markings, t0, id);
      result := TarjanClosure(id, {});
      if result.Some? {
        VisitOver(markings, t0, Snapshot(), id, result.value);
        VisitPartition(markings, t0, Snapshot(), id, result.value);
      }
    }

    /** Visits m and everything tau-reachable from it that was not visited before. */
    method TarjanClosure(m: nat, ghost gray: set<nat>) returns (result: Option<seq<seq<nat>>>)
      requires WellFormed(markings) && m < |markings| && Ready(markings, Snapshot(), gray, m)
      modifies this
      ensures result.None? ==> BadReachable(markings, m)
      ensures result.Some? ==> Visit(markings, old(Snapshot()), Snapshot(), gray, m, result.value)
      decreases Unvisited(|markings|, dfs)
    {
      hide Scanning, Visit, Ready, BadReachable, TauSteps, Reach, Unvisited, AllSeen, SetOf, Represents, Ascending,
        OnStack, SeenUpTo;
      ghost var t0 := Snapshot();
      templist := templist + [m];
      dfs := dfs[m := maxdfs];
      lowlink := lowlink[m := maxdfs];
      maxdfs := maxdfs + 1;
      S := S + [m];
      inStack := inStack[m := true];
      if markings[m].isBad {
        BadHere(markings, m);
        return None;
      }
      var lists: seq<seq<nat>> := [];
      ghost var seen: set<nat> := {};
      StartScan(markings, t0, gray, m);
      SeenNothing(markings, m);
      var i := 0;
      while i < |markings[m].successors|
        invariant 0 <= i <= |markings[m].successors|
        invariant Scanning(markings, t0, Snapshot(), gray, m, lists, seen)
        invariant SeenUpTo(markings, m, i, seen)
      {
        if markings[m].labels[i] == TAU {
          var neighbour := markings[m].successors[i];
          TauNeighbour(markings, m, i);
          ghost var t := Snapshot();
          ScanFresh(markings, t0, t, gray, m, lists, seen);
          VisitedIffNumbered(markings, t0, t, gray, m, lists, seen);
          var visited := Visited(neighbour);
          if !visited {
            ReadyForChild(markings, t0, t, gray, m, lists, seen, neighbour);
            UnvisitedShrinks(|markings|, t0.dfs, dfs, m);
            var temp := TarjanClosure(neighbour, gray + {m});
            if temp.None? {
              BadThrough(markings, m, neighbour);
              return None;
            }
            TakeChild(markings, t0, t, Snapshot(), gray, m, lists, seen, neighbour, temp.value);
            lists := lists + temp.value;
            lowlink := lowlink[m := Min(lowlink[m], lowlink[neighbour])];
          } else {
            NextSeen(markings, t0, t, gray, m, lists, seen, neighbour);
            if OnStack(inStack, neighbour) {
              lowlink := lowlink[m := Min(lowlink[m], dfs[neighbour])];
            }
          }
          seen := seen + {neighbour};
        }
        SeenNext(markings, m, i, seen);
        i := i + 1;
      }
      SeenEverything(markings, m, i, seen);
      ghost var t := Snapshot();
      ScanFresh(markings, t0, t, gray, m, lists, seen);
      if lowlink[m] == dfs[m] {
        RootPosition(markings, t0, t, gray, m, lists, seen);
        var SCC := PopComponent(m, |t0.S|);
        comps := comps + [SetOf(t.S[|t0.S|..])];
        PopVisit(markings, t0, t, gray, m, lists, seen, inStack, SCC);
        lists := lists + [SCC];
      } else {
        KeepVisit(markings, t0, t, gray, m, lists, seen);
      }
      return Some(lists);
    }
  }

  lemma SetOfReversed(a: seq<nat>, b: seq<nat>)
    requires |a| == |b| && forall i :: 0 <= i < |a| ==> a[i] == b[|b| - 1 - i]
    ensures SetOf(a) == SetOf(b)
  {
    forall x ensures x in a <==> x in b {
      if x in a {
        var i :| 0 <= i < |a| && a[i] == x;
        assert b[|b| - 1 - i] == x;
      }
      if x in b {
        var i :| 0 <= i < |b| && b[i] == x;
        assert a[|b| - 1 - i] == x;
      }
    }
  }
}
