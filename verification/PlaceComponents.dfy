/** The strongly connected components of the place-to-place graph of a net. */
module PlaceComponents {
  import opened Components
  import opened Lists
  import opened PetriNets
  import opened Reachability
  import opened Sets

  /** p -> q whenever some transition takes from p and puts on q. */
  ghost function PlaceEdges(net: Net, k: nat): set<(nat, nat)>
    requires k <= |net.pre| && k <= |net.post|
  {
    set t, p, q | 0 <= t < k && p in net.pre[t] && q in net.post[t] :: (p, q)
  }

  /** Every transition counts, whatever its weights are, and nothing else does. */
  lemma EdgeMeansTransition(net: Net, p: nat, q: nat)
    requires |net.post| == |net.pre|
    ensures (p, q) in PlaceEdges(net, |net.pre|) <==>
            exists t: nat :: t < |net.pre| && p in net.pre[t] && q in net.post[t]
  {
  }

  ghost predicate OnArc(E: set<(nat, nat)>, p: nat) {
    exists q :: (p, q) in E || (q, p) in E
  }

  /** The fields of all node objects, by place, and the state of the search. */
  datatype Nodes = Nodes(index: map<nat, int>, low: map<nat, int>, instack: map<nat, bool>, st: seq<nat>, maxdfs: int,
                         pv: seq<set<nat>>)
  {
    ghost function Core(): Search<nat> {
      Search(Numbers(index), st, pv)
    }
  }

  ghost function Numbers(index: map<nat, int>): map<nat, int> {
    map p | p in index && index[p] >= 0 :: index[p]
  }

  ghost predicate StackAgrees(st: seq<nat>, instack: map<nat, bool>) {
    && Distinct(st)
    && (forall p :: p in st ==> p in instack)
    && (forall p :: p in instack ==> (instack[p] <==> p in st))
  }

  ghost predicate Consistent(n: nat, t: Nodes) {
    && (forall p: nat :: p in t.index <==> p < n)
    && t.low.Keys == t.index.Keys && t.instack.Keys == t.index.Keys
    && StackAgrees(t.st, t.instack)
    && 0 <= t.maxdfs
  }

  /** Visited nodes keep their low value, unvisited ones their index. */
  ghost predicate Kept(t0: Nodes, t: Nodes) {
    && t.index.Keys == t0.index.Keys
    && (forall p :: p in t0.index && t0.index[p] >= 0 && p in t0.low && p in t.low ==> t.low[p] == t0.low[p])
    && (forall p :: p in t.index && t.index[p] < 0 ==> p in t0.index && t0.index[p] == t.index[p])
  }

  ghost predicate Ready(n: nat, E: set<(nat, nat)>, t: Nodes, gray: set<nat>, v: nat) {
    && Consistent(n, t)
    && Inv(E, t.Core(), gray, t.maxdfs)
    && v < n && v in t.index && t.index[v] < 0
    && forall x :: x in gray ==> Reach(E, x, v)
  }

  ghost predicate Scanning(n: nat, E: set<(nat, nat)>, t0: Nodes, t: Nodes, gray: set<nat>, v: nat, seen: set<nat>) {
    && Consistent(n, t)
    && v in t.low
    && Scan(E, t0.Core(), t.Core(), gray, t0.maxdfs, t.maxdfs, v, t.low[v], seen)
    && Kept(t0, t)
  }

  ghost predicate Visit(n: nat, E: set<(nat, nat)>, t0: Nodes, t: Nodes, gray: set<nat>, v: nat) {
    && Consistent(n, t)
    && v in t.low
    && Done(E, t0.Core(), t.Core(), gray, t0.maxdfs, t.maxdfs, v, t.low[v])
    && Kept(t0, t)
  }

  function Entered(t: Nodes, v: nat): Nodes {
    Nodes(t.index[v := t.maxdfs], t.low[v := t.maxdfs], t.instack[v := true], t.st + [v], t.maxdfs + 1, t.pv)
  }

  lemma EnteredConsistent(n: nat, t: Nodes, v: nat)
    requires Consistent(n, t) && v < n && v !in t.st
    ensures Consistent(n, Entered(t, v))
  {
    var t' := Entered(t, v);
    assert forall p :: p in t'.st <==> p in t.st || p == v;
  }

  lemma StartScan(n: nat, E: set<(nat, nat)>, t: Nodes, gray: set<nat>, v: nat)
    requires Ready(n, E, t, gray, v)
    ensures Scanning(n, E, t, Entered(t, v), gray, v, {})
  {
    hide Scan, Inv, Reach, StackAgrees;
    Unstacked(E, t, gray, v);
    EnteredConsistent(n, t, v);
    Enter(E, t.Core(), gray, t.maxdfs, v);
    assert Numbers(Entered(t, v).index) == Numbers(t.index)[v := t.maxdfs];
    assert Entered(t, v).Core() == Push(t.Core(), v, t.maxdfs);
  }

  lemma Unstacked(E: set<(nat, nat)>, t: Nodes, gray: set<nat>, v: nat)
    requires Inv(E, t.Core(), gray, t.maxdfs) && v in t.index && t.index[v] < 0
    ensures v !in t.st
  {
    Known(E, t.Core(), gray, t.maxdfs);
  }

  function Lowered(t: Nodes, v: nat, x: int): Nodes
    requires v in t.low
  {
    t.(low := t.low[v := Min(t.low[v], x)])
  }

  lemma ScanFresh(n: nat, E: set<(nat, nat)>, t0: Nodes, t: Nodes, gray: set<nat>, v: nat, seen: set<nat>)
    requires Scanning(n, E, t0, t, gray, v, seen)
    ensures v in t0.index ==> t0.index[v] < 0
    ensures v in t.index && t.index[v] == t0.maxdfs && t.index[v] >= 0
    ensures v in t.low && v < n
    ensures forall p :: p in t0.index && t0.index[p] >= 0 ==> p in t.index && t.index[p] >= 0
  {
    hide Inv, Crossing, NewReached, LowWitness, Reach, StackAgrees;
  }

  lemma NextSeen(n: nat, E: set<(nat, nat)>, t0: Nodes, t: Nodes, gray: set<nat>, v: nat, seen: set<nat>, w: nat)
    requires Scanning(n, E, t0, t, gray, v, seen)
    requires (v, w) in E && w in t.index && t.index[w] >= 0
    ensures w in t.instack
    ensures t.instack[w] ==> Scanning(n, E, t0, Lowered(t, v, t.index[w]), gray, v, seen + {w})
    ensures !t.instack[w] ==> Scanning(n, E, t0, t, gray, v, seen + {w})
  {
    hide Scan, Reach;
    ScanFresh(n, E, t0, t, gray, v, seen);
    if w in t.st {
      SeenOnStack(E, t0.Core(), t.Core(), gray, t0.maxdfs, t.maxdfs, v, t.low[v], seen, w);
    } else {
      SeenDone(E, t0.Core(), t.Core(), gray, t0.maxdfs, t.maxdfs, v, t.low[v], seen, w);
    }
  }

  lemma ReadyForChild(n: nat, E: set<(nat, nat)>, t0: Nodes, t: Nodes, gray: set<nat>, v: nat, seen: set<nat>, w: nat)
    requires Scanning(n, E, t0, t, gray, v, seen)
    requires (v, w) in E && w < n && w in t.index && t.index[w] < 0
    ensures Ready(n, E, t, gray + {v}, w)
  {
    GrayReaches(E, t0.Core(), t.Core(), gray, t0.maxdfs, t.maxdfs, v, t.low[v], seen, w);
    hide Consistent, Inv, Crossing, NewReached, LowWitness, Reach, SeenOK, Kept;
  }

  lemma TakeChild(n: nat, E: set<(nat, nat)>, t0: Nodes, t: Nodes, t': Nodes, gray: set<nat>, v: nat, seen: set<nat>,
                  w: nat)
    requires Scanning(n, E, t0, t, gray, v, seen)
    requires (v, w) in E && w in t.index && t.index[w] < 0
    requires Visit(n, E, t, t', gray + {v}, w)
    ensures v in t'.low && w in t'.low
    ensures Scanning(n, E, t0, Lowered(t', v, t'.low[w]), gray, v, seen + {w})
  {
    hide Scan, Done, Reach, StackAgrees;
    ScanFresh(n, E, t0, t, gray, v, seen);
    assert v in t'.low && t'.low[v] == t.low[v];
    AfterChild(E, t0.Core(), t.Core(), t'.Core(), gray, t0.maxdfs, t.maxdfs, t'.maxdfs, v, t.low[v], seen, w,
               t'.low[w]);
  }

  /** v is not the root of its component. */
  lemma KeepVisit(n: nat, E: set<(nat, nat)>, t0: Nodes, t: Nodes, gray: set<nat>, v: nat, seen: set<nat>)
    requires Scanning(n, E, t0, t, gray, v, seen) && AllSeen(E, v, seen)
    requires v in t.index && t.low[v] != t.index[v]
    ensures Visit(n, E, t0, t, gray, v)
  {
    hide Inv, Crossing, NewReached, LowWitness, Reach, AllSeen, SeenOK, StackAgrees;
    FinishKeep(E, t0.Core(), t.Core(), gray, t0.maxdfs, t.maxdfs, v, t.low[v], seen);
  }

  lemma RootPosition(n: nat, E: set<(nat, nat)>, t0: Nodes, t: Nodes, gray: set<nat>, v: nat, seen: set<nat>)
    requires Scanning(n, E, t0, t, gray, v, seen)
    ensures |t0.st| < |t.st| && t.st[|t0.st|] == v && StackAgrees(t.st, t.instack)
  {
    hide Inv, Crossing, NewReached, LowWitness, Reach, SeenOK, StackAgrees;
    assert t.Core().stack[|t0.st|] == v;
  }

  /** v is the root of its component, which is popped. */
  lemma PopVisit(n: nat, E: set<(nat, nat)>, t0: Nodes, t: Nodes, gray: set<nat>, v: nat, seen: set<nat>, t': Nodes)
    requires Scanning(n, E, t0, t, gray, v, seen) && AllSeen(E, v, seen)
    requires v in t.index && t.low[v] == t.index[v] && |t0.st| <= |t.st|
    requires t' == t.(st := t.st[..|t0.st|], instack := t'.instack, pv := t.pv + [SetOf(t.st[|t0.st|..])])
    requires StackAgrees(t'.st, t'.instack) && t'.instack.Keys == t.instack.Keys
    ensures Visit(n, E, t0, t', gray, v)
  {
    hide Scan, Done, Reach, AllSeen, StackAgrees;
    ScanFresh(n, E, t0, t, gray, v, seen);
    FinishPop(E, t0.Core(), t.Core(), gray, t0.maxdfs, t.maxdfs, v, t.low[v], seen);
    assert t'.Core() == Pop(t.Core(), |t0.st|);
  }

  // ---------- the result ----------

  /** pv is the partition of the places that occur on some edge into the strongly
      connected components of the graph; every component comes after the others it reaches. */
  ghost predicate IsPartition(E: set<(nat, nat)>, pv: seq<set<nat>>) {
    && (forall i :: 0 <= i < |pv| ==> IsComponent(E, pv[i]))
    && Disjoint(pv)
    && Ordered(E, pv)
    && (forall p :: OnArc(E, p) <==> InComps(pv, |pv|, p))
  }

  /** Between the searches started by the outer loop. */
  ghost predicate Between(n: nat, E: set<(nat, nat)>, t: Nodes) {
    && Consistent(n, t) && Inv(E, t.Core(), {}, t.maxdfs)
  }

  lemma AllVisited(n: nat, E: set<(nat, nat)>, t: Nodes)
    requires Between(n, E, t)
    requires forall p :: OnArc(E, p) ==> p in t.index && t.index[p] >= 0
    requires forall p :: p in t.index && t.index[p] >= 0 ==> OnArc(E, p)
    ensures IsPartition(E, t.pv)
  {
    hide Reach, StackOK, GrayOK, IsComponent, Disjoint, Ordered, InComps, OnArc;
    SearchOver(E, t.Core(), t.maxdfs);
    assert forall x :: x in t.Core().num <==> x in t.index && t.index[x] >= 0;
  }

  // ---------- the graph ----------

  ghost function Successors(E: set<(nat, nat)>, p: nat): set<nat> {
    set e | e in E && e.0 == p :: e.1
  }

  /** The node objects represent the graph E and nothing has been visited. */
  ghost predicate Represents(n: nat, E: set<(nat, nat)>, nodes: map<nat, set<nat>>, index: map<nat, int>) {
    && (forall p: nat :: p in nodes <==> p < n)
    && (forall p: nat :: p in index <==> p < n)
    && (forall e :: e in E ==> e.0 < n && e.1 < n)
    && (forall p :: p in nodes ==> nodes[p] == Successors(E, p))
    && (forall p :: p in index ==> index[p] == if OnArc(E, p) then -1 else -2)
  }

  lemma AddArcOK(n: nat, E: set<(nat, nat)>, nodes: map<nat, set<nat>>, index: map<nat, int>, p: nat, q: nat)
    requires Represents(n, E, nodes, index) && p < n && q < n
    ensures Represents(n, E + {(p, q)}, nodes[p := nodes[p] + {q}], index[p := -1][q := -1])
  {
    var F := E + {(p, q)};
    forall r: nat ensures Successors(F, r) == Successors(E, r) + if r == p then {q} else {} {
      if r == p { assert (p, q) in F; }
    }
    forall r: nat ensures OnArc(F, r) <==> OnArc(E, r) || r == p || r == q {
      if r == p || r == q { assert (p, q) in F; }
      if OnArc(E, r) { var s :| (r, s) in E || (s, r) in E; assert (r, s) in F || (s, r) in F; }
    }
  }

  ghost function ArcsFrom(p: nat, post: map<nat, nat>, k: nat): set<(nat, nat)> {
    set q | q in post && q < k :: (p, q)
  }

  ghost function ArcsOf(pre: map<nat, nat>, post: map<nat, nat>, k: nat): set<(nat, nat)> {
    set p, q | p in pre && p < k && q in post :: (p, q)
  }

  class Tarjan {
    const net: Net
    var nodes: map<nat, set<nat>>
    var index: map<nat, int>
    var low: map<nat, int>
    var instack: map<nat, bool>
    var st: seq<nat>
    var maxdfs: int
    var pv: seq<set<nat>>

    constructor (net: Net)
      ensures this.net == net
      ensures Represents(net.places, {}, nodes, index)
      ensures low.Keys == index.Keys && instack.Keys == index.Keys && (forall p :: p in instack ==> !instack[p])
      ensures st == [] && pv == [] && maxdfs == 0 && forall p :: p in low ==> low[p] == -1
    {
      this.net := net;
      nodes := map p | p in Range(0, net.places) :: {};
      index := map p | p in Range(0, net.places) :: -2;
      low := map p | p in Range(0, net.places) :: -1;
      instack := map p | p in Range(0, net.places) :: false;
      st := [];
      maxdfs := 0;
      pv := [];
    }

    /** Adds an arc; None stands for a null pointer. */
    method AddArc(pfrom: Option<nat>, pto: Option<nat>, ghost E: set<(nat, nat)>) returns (ok: bool)
      requires Represents(net.places, E, nodes, index)
      requires (pfrom.Some? ==> pfrom.value < net.places) && (pto.Some? ==> pto.value < net.places)
      modifies this`nodes, this`index
      ensures ok <==> pfrom.Some? && pto.Some?
      ensures Represents(net.places, if ok then E + {(pfrom.value, pto.value)} else E, nodes, index)
    {
      hide Represents;
      if pfrom == None || pto == None {
        return false;
      }
      var p, q := pfrom.value, pto.value;
      AddArcOK(net.places, E, nodes, index, p, q);
      RepresentsKeys(net.places, E, nodes, index);
      nodes := nodes[p := nodes[p] + {q}];
      index := index[p := -1];
      index := index[q := -1];
      return true;
    }

    method AddArcsFrom(p: nat, post: map<nat, nat>, ghost E: set<(nat, nat)>)
      requires Represents(net.places, E, nodes, index) && p < net.places && forall q :: q in post ==> q < net.places
      modifies this`nodes, this`index
      ensures Represents(net.places, E + ArcsFrom(p, post, net.places), nodes, index)
    {
      hide Represents;
      assert E + ArcsFrom(p, post, 0) == E;
      for q := 0 to net.places
        invariant Represents(net.places, E + ArcsFrom(p, post, q), nodes, index)
      {
        if q in post {
          var ok := AddArc(Some(p), Some(q), E + ArcsFrom(p, post, q));
          assert E + ArcsFrom(p, post, q + 1) == E + ArcsFrom(p, post, q) + {(p, q)};
        } else {
          assert ArcsFrom(p, post, q + 1) == ArcsFrom(p, post, q);
        }
      }
    }

    method AddTransition(t: nat, ghost E: set<(nat, nat)>)
      requires WellFormedNet(net) && t < |net.pre|
      requires Represents(net.places, E, nodes, index)
      modifies this`nodes, this`index
      ensures Represents(net.places, E + ArcsOf(net.pre[t], net.post[t], net.places), nodes, index)
    {
      hide Represents;
      assert E + ArcsOf(net.pre[t], net.post[t], 0) == E;
      for p := 0 to net.places
        invariant Represents(net.places, E + ArcsOf(net.pre[t], net.post[t], p), nodes, index)
      {
        if p in net.pre[t] {
          AddArcsFrom(p, net.post[t], E + ArcsOf(net.pre[t], net.post[t], p));
          ArcsOfNext(net.pre[t], net.post[t], p, net.places);
          assert E + ArcsOf(net.pre[t], net.post[t], p + 1) ==
            E + ArcsOf(net.pre[t], net.post[t], p) + ArcsFrom(p, net.post[t], net.places);
        } else {
          assert ArcsOf(net.pre[t], net.post[t], p + 1) == ArcsOf(net.pre[t], net.post[t], p);
        }
      }
    }

    /** Builds the place-to-place graph of the net. */
    method BuildGraph()
      requires WellFormedNet(net) && Represents(net.places, {}, nodes, index)
      modifies this`nodes, this`index
      ensures Represents(net.places, PlaceEdges(net, |net.pre|), nodes, index)
    {
      hide Represents, PlaceEdges, ArcsOf;
      NoEdges(net);
      for t := 0 to |net.pre|
        invariant Represents(net.places, PlaceEdges(net, t), nodes, index)
      {
        AddTransition(t, PlaceEdges(net, t));
        NextEdges(net, t);
      }
    }

    ghost function Snapshot(): Nodes
      reads this
    {
      Nodes(index, low, instack, st, maxdfs, pv)
    }

    /** Pops the stack down to and including start. */
    method PopComponent(start: nat, ghost h: nat) returns (pres: set<nat>)
      requires h < |st| && st[h] == start && StackAgrees(st, instack)
      modifies this`st, this`instack
      ensures st == old(st)[..h] && StackAgrees(st, instack) && instack.Keys == old(instack).Keys
      ensures pres == SetOf(old(st)[h..])
    {
      pres := {};
      var go := start;
      var more := true;
      while more
        invariant h <= |st| <= |old(st)| && st == old(st)[..|st|]
        invariant more ==> h < |st|
        invariant !more ==> |st| == h
        invariant StackAgrees(st, instack) && instack.Keys == old(instack).Keys
        invariant pres == SetOf(old(st)[|st|..])
        decreases |st|, more
      {
        DropLast(st);
        ghost var k := |st| - 1;
        go := st[|st| - 1];
        instack := instack[go := false];
        st := st[..|st| - 1];
        assert old(st)[k..] == [go] + old(st)[k + 1..];
        pres := pres + {go};
        more := start != go;
      }
    }

    /** Visits start and everything reachable from it that was not visited before. */
    method DoTarjan(start: nat, ghost E: set<(nat, nat)>, ghost gray: set<nat>)
      requires Ready(net.places, E, Snapshot(), gray, start)
      requires forall p: nat :: p in nodes <==> p < net.places
      requires forall p :: p in nodes ==> nodes[p] == Successors(E, p)
      requires forall e :: e in E ==> e.0 < net.places && e.1 < net.places
      modifies this`index, this`low, this`instack, this`st, this`maxdfs, this`pv
      ensures Visit(net.places, E, old(Snapshot()), Snapshot(), gray, start)
      decreases Unvisited(index)
    {
      hide Scanning, Visit, Ready, Reach, AllSeen, SetOf, StackAgrees, Unvisited, Successors;
      ghost var t0 := Snapshot();
      ReadyFields(net.places, E, t0, gray, start);
      index := index[start := maxdfs];
      low := low[start := maxdfs];
      maxdfs := maxdfs + 1;
      st := st + [start];
      instack := instack[start := true];
      StartScan(net.places, E, t0, gray, start);
      ghost var seen: set<nat> := {};
      var todo := nodes[start];
      SuccessorEdges(E, start);
      while todo != {}
        invariant todo <= nodes[start] && seen == nodes[start] - todo
        invariant Scanning(net.places, E, t0, Snapshot(), gray, start, seen)
        decreases todo
      {
        var it :| it in todo;
        ghost var t := Snapshot();
        ScanFresh(net.places, E, t0, t, gray, start, seen);
        ScanKeys(net.places, E, t0, t, gray, start, seen);
        if index[it] < 0 {
          ReadyForChild(net.places, E, t0, t, gray, start, seen, it);
          UnvisitedShrinks(t0.index, index, start);
          DoTarjan(it, E, gray + {start});
          TakeChild(net.places, E, t0, t, Snapshot(), gray, start, seen, it);
          low := low[start := Min(low[start], low[it])];
        } else {
          NextSeen(net.places, E, t0, t, gray, start, seen, it);
          if instack[it] {
            low := low[start := Min(low[start], index[it])];
          }
        }
        todo := todo - {it};
        seen := seen + {it};
      }
      AllSeenNow(E, start, seen);
      ghost var t := Snapshot();
      ScanFresh(net.places, E, t0, t, gray, start, seen);
      if low[start] == index[start] {
        RootPosition(net.places, E, t0, t, gray, start, seen);
        var pres := PopComponent(start, |t0.st|);
        pv := pv + [pres];
        PopVisit(net.places, E, t0, t, gray, start, seen, Snapshot());
      } else {
        KeepVisit(net.places, E, t0, t, gray, start, seen);
      }
    }

    /** Computes the components, starting a search at every unvisited place that lies on an arc. */
    method GetComponents(ghost E: set<(nat, nat)>)
      requires Represents(net.places, E, nodes, index)
      requires low.Keys == index.Keys && instack.Keys == index.Keys && (forall p :: p in instack ==> !instack[p])
      requires pv == []
      modifies this`index, this`low, this`instack, this`st, this`maxdfs, this`pv
      ensures IsPartition(E, pv)
    {
      hide Between, Covered, Visit, Ready, IsPartition, OnArc, Successors;
      maxdfs := 0;
      st := [];
      NothingVisited(net.places, E, nodes, Snapshot());
      for p := 0 to net.places
        invariant Between(net.places, E, Snapshot()) && Covered(net.places, E, index, p)
        invariant forall q: nat :: q in index <==> q < net.places
      {
        ghost var t := Snapshot();
        if index[p] == -1 {
          ReadyAtRoot(net.places, E, t, p);
          DoTarjan(p, E, {});
          AfterRoot(net.places, E, t, Snapshot(), p);
        } else {
          SkipRoot(net.places, E, t, p);
        }
      }
      CoveredAll(net.places, E, Snapshot());
    }
  }

  ghost function Unvisited(index: map<nat, int>): set<nat> {
    set p | p in index && index[p] < 0
  }

  lemma UnvisitedShrinks(index: map<nat, int>, index': map<nat, int>, v: nat)
    requires index'.Keys == index.Keys && v in index && index[v] < 0 && index'[v] >= 0
    requires forall p :: p in index && index[p] >= 0 ==> index'[p] >= 0
    ensures Unvisited(index') < Unvisited(index)
  {
    assert v in Unvisited(index) && v !in Unvisited(index');
  }

  lemma RepresentsKeys(n: nat, E: set<(nat, nat)>, nodes: map<nat, set<nat>>, index: map<nat, int>)
    requires Represents(n, E, nodes, index)
    ensures forall p: nat :: p in nodes <==> p < n
  {
  }

  lemma ArcsOfNext(pre: map<nat, nat>, post: map<nat, nat>, p: nat, n: nat)
    requires p in pre && forall q :: q in post ==> q < n
    ensures ArcsOf(pre, post, p + 1) == ArcsOf(pre, post, p) + ArcsFrom(p, post, n)
  {
  }

  lemma NoEdges(net: Net)
    ensures PlaceEdges(net, 0) == {}
  {
  }

  lemma NextEdges(net: Net, t: nat)
    requires WellFormedNet(net) && t < |net.pre|
    ensures PlaceEdges(net, t + 1) == PlaceEdges(net, t) + ArcsOf(net.pre[t], net.post[t], net.places)
  {
  }

  lemma ReadyFields(n: nat, E: set<(nat, nat)>, t: Nodes, gray: set<nat>, v: nat)
    requires Ready(n, E, t, gray, v)
    ensures v < n && v in t.index && t.index[v] < 0
  {
    hide Consistent, Inv, Reach;
  }

  lemma ScanKeys(n: nat, E: set<(nat, nat)>, t0: Nodes, t: Nodes, gray: set<nat>, v: nat, seen: set<nat>)
    requires Scanning(n, E, t0, t, gray, v, seen)
    ensures forall p: nat :: p in t.index <==> p < n
    ensures t.low.Keys == t.index.Keys == t.instack.Keys == t0.index.Keys
  {
    hide Scan, StackAgrees;
  }

  lemma SuccessorEdges(E: set<(nat, nat)>, v: nat)
    ensures forall w :: w in Successors(E, v) <==> (v, w) in E
  {
    forall w: nat | (v, w) in E ensures w in Successors(E, v) {
      var e := (v, w);
      assert e in E && e.0 == v && e.1 == w;
    }
  }

  lemma AllSeenNow(E: set<(nat, nat)>, v: nat, seen: set<nat>)
    requires seen == Successors(E, v)
    ensures AllSeen(E, v, seen)
  {
    SuccessorEdges(E, v);
  }

  /** All places below k that lie on an arc have been visited, and no other place has been. */
  ghost predicate Covered(n: nat, E: set<(nat, nat)>, index: map<nat, int>, k: nat) {
    && (forall p: nat :: OnArc(E, p) ==> p < n)
    && (forall p :: p in index && index[p] >= 0 ==> OnArc(E, p))
    && (forall p :: p in index && index[p] < 0 ==> index[p] == (if OnArc(E, p) then -1 else -2))
    && (forall p :: p in index && p < k && OnArc(E, p) ==> index[p] >= 0)
  }

  lemma NothingVisited(n: nat, E: set<(nat, nat)>, nodes: map<nat, set<nat>>, t: Nodes)
    requires Represents(n, E, nodes, t.index) && t.low.Keys == t.index.Keys && t.instack.Keys == t.index.Keys
    requires (forall p :: p in t.instack ==> !t.instack[p]) && t.st == [] && t.maxdfs == 0 && t.pv == []
    ensures Between(n, E, t) && Covered(n, E, t.index, 0)
  {
    assert Numbers(t.index) == map[];
    forall p: nat | OnArc(E, p) ensures p < n {
      var q :| (p, q) in E || (q, p) in E;
    }
  }

  lemma ReadyAtRoot(n: nat, E: set<(nat, nat)>, t: Nodes, p: nat)
    requires Between(n, E, t) && p < n && p in t.index && t.index[p] < 0
    ensures Ready(n, E, t, {}, p)
  {
    hide Consistent, Inv, Reach;
  }

  /** A place reached from another one lies on an arc. */
  lemma ReachedOnArc(E: set<(nat, nat)>, u: nat, v: nat)
    requires Reach(E, u, v) && OnArc(E, u)
    ensures OnArc(E, v)
  {
    var p :| Path(E, p, u, v);
    if |p| > 1 { assert (p[|p| - 2], p[|p| - 1]) in E; }
  }

  lemma AfterRoot(n: nat, E: set<(nat, nat)>, t: Nodes, t': Nodes, p: nat)
    requires Between(n, E, t) && Covered(n, E, t.index, p)
    requires p < n && p in t.index && t.index[p] == -1 && Visit(n, E, t, t', {}, p)
    ensures Between(n, E, t') && Covered(n, E, t'.index, p + 1)
    ensures forall q: nat :: q in t'.index <==> q < n
  {
    hide Inv, Reach, StackAgrees, Crossing, LowWitness, OnArc;
    assert NewReached(E, t.Core().num, t'.Core().num, p);
    forall q | q in t'.index && t'.index[q] >= 0 ensures OnArc(E, q) {
      if t.index[q] < 0 { ReachedOnArc(E, p, q); }
    }
  }

  lemma SkipRoot(n: nat, E: set<(nat, nat)>, t: Nodes, p: nat)
    requires Covered(n, E, t.index, p) && p in t.index && t.index[p] != -1
    ensures Covered(n, E, t.index, p + 1)
  {
    hide OnArc;
  }

  lemma CoveredAll(n: nat, E: set<(nat, nat)>, t: Nodes)
    requires Between(n, E, t) && Covered(n, E, t.index, n)
    ensures IsPartition(E, t.pv)
  {
    hide OnArc, Inv, StackAgrees;
    AllVisited(n, E, t);
  }

  /** The components of a net: the places on arcs of the place-to-place graph,
      partitioned into its strongly connected components. */
  method ComponentsOf(net: Net) returns (scc: seq<set<nat>>)
    requires WellFormedNet(net)
    ensures IsPartition(PlaceEdges(net, |net.pre|), scc)
  {
    var tj := new Tarjan(net);
    tj.BuildGraph();
    tj.GetComponents(PlaceEdges(net, |net.pre|));
    scc := tj.pv;
  }

  /** A place is listed as a component of its own exactly if it lies on an arc but on no
      cycle through other places, whether or not it has a self-loop. */
  lemma SingletonsAreListed(E: set<(nat, nat)>, pv: seq<set<nat>>, p: nat)
    requires IsPartition(E, pv)
    ensures (exists i :: 0 <= i < |pv| && pv[i] == {p}) <==>
            OnArc(E, p) && forall q: nat :: Reach(E, p, q) && Reach(E, q, p) ==> q == p
  {
    hide Reach, Ordered, OnArc;
    if i :| 0 <= i < |pv| && pv[i] == {p} {
      assert p in pv[i] && IsComponent(E, pv[i]);
      assert InComps(pv, |pv|, p);
    }
    if OnArc(E, p) && forall q: nat :: Reach(E, p, q) && Reach(E, q, p) ==> q == p {
      assert InComps(pv, |pv|, p);
      var i :| 0 <= i < |pv| && p in pv[i];
      forall q | q in pv[i] ensures q == p {
        assert IsComponent(E, pv[i]);
      }
    }
  }

  ghost predicate OnCycle(E: set<(nat, nat)>, p: nat) {
    exists q :: (p, q) in E && Reach(E, q, p)
  }

  /** A component as the comment describes it: several places, or one with a self-loop. */
  ghost predicate Cyclic(E: set<(nat, nat)>, C: set<nat>) {
    (exists p, q :: p in C && q in C && p != q) || exists p :: p in C && (p, p) in E
  }

  lemma FirstEdge(E: set<(nat, nat)>, u: nat, v: nat)
    requires Reach(E, u, v) && u != v
    ensures exists q :: (u, q) in E && Reach(E, q, v)
  {
    var p :| Path(E, p, u, v);
    assert (p[0], p[1]) in E;
    assert Path(E, p[1..], p[1], v);
  }

  /** The comment's description of the result is right exactly for the graphs in which
      every place on an arc lies on a cycle. */
  lemma OnlyCyclesListed(E: set<(nat, nat)>, pv: seq<set<nat>>)
    requires IsPartition(E, pv)
    ensures (forall i :: 0 <= i < |pv| ==> Cyclic(E, pv[i])) <==> forall p: nat :: OnArc(E, p) ==> OnCycle(E, p)
  {
    hide Reach, Ordered, OnArc;
    if forall i :: 0 <= i < |pv| ==> Cyclic(E, pv[i]) {
      forall p: nat | OnArc(E, p) ensures OnCycle(E, p) {
        assert InComps(pv, |pv|, p);
        var i :| 0 <= i < |pv| && p in pv[i];
        CyclicMember(E, pv[i], p);
      }
    }
    if forall p: nat :: OnArc(E, p) ==> OnCycle(E, p) {
      forall i | 0 <= i < |pv| ensures Cyclic(E, pv[i]) {
        assert IsComponent(E, pv[i]);
        var p :| p in pv[i];
        assert InComps(pv, |pv|, p);
        var q :| (p, q) in E && Reach(E, q, p);
        ReachEdge(E, p, q);
        assert q in pv[i];
      }
    }
  }

  lemma CyclicMember(E: set<(nat, nat)>, C: set<nat>, p: nat)
    requires IsComponent(E, C) && Cyclic(E, C) && p in C
    ensures OnCycle(E, p)
  {
    hide Reach;
    if q :| q in C && q != p {
      FirstEdge(E, p, q);
      var r :| (p, r) in E && Reach(E, r, q);
      ReachTrans(E, r, q, p);
    } else {
      assert (p, p) in E;
      ReachRefl(E, p);
    }
  }

  /** One transition from place 0 to place 1. */
  ghost function OneStep(): Net {
    Net(2, [map[0 := 1]], [map[1 := 1]], [1, 0])
  }

  /** Neither place lies on a cycle, and both are listed. */
  lemma BothSingletonsListed(pv: seq<set<nat>>)
    requires IsPartition(PlaceEdges(OneStep(), 1), pv)
    ensures exists i, j :: 0 <= i < |pv| && 0 <= j < |pv| && pv[i] == {0} && pv[j] == {1}
    ensures !OnCycle(PlaceEdges(OneStep(), 1), 0) && !OnCycle(PlaceEdges(OneStep(), 1), 1)
  {
    var E := PlaceEdges(OneStep(), 1);
    assert 0 in OneStep().pre[0] && 1 in OneStep().post[0];
    assert (0, 1) in E;
    forall x | x in E ensures x == (0, 1) { }
    assert E == {(0, 1)};
    hide PlaceEdges, OneStep, IsPartition;
    assert OnArc(E, 0) && OnArc(E, 1);
    forall q: nat | Reach(E, 1, q) ensures q == 1 { ReachStaysInClosed(E, {1}, 1, q); }
    forall q: nat | Reach(E, 0, q) ensures q == 0 || q == 1 { ReachStaysInClosed(E, {0, 1}, 0, q); }
    hide Reach;
    SingletonsAreListed(E, pv, 0);
    SingletonsAreListed(E, pv, 1);
  }
}
