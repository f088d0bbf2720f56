/** Nets that are extended in place. */
module TaskNets {
  import opened Gadgets
  import opened PetriNets

  /** Take(p, t) leads from place p to transition t, Put(t, p) the other way. */
  datatype Arc = Take(p: nat, t: nat) | Put(t: nat, p: nat)

  ghost predicate ArcInside(net: Net, a: Arc) {
    a.t < |net.pre| && a.t < |net.post| && a.p < net.places
  }

  function WithPlace(net: Net, tokens: nat): Net {
    net.(places := net.places + 1, m0 := net.m0 + [tokens])
  }

  function WithTransition(net: Net): Net {
    net.(pre := net.pre + [map[]], post := net.post + [map[]])
  }

  /** after is before with the arcs added, each of weight 1. */
  ghost predicate Inserted(before: Net, after: Net, arcs: set<Arc>) {
    && after.places == before.places && after.m0 == before.m0
    && |after.pre| == |before.pre| && |after.post| == |before.post|
    && (forall t: nat, p: nat :: t < |after.pre| ==>
        Weight(after.pre[t], p) == if Take(p, t) in arcs then 1 else Weight(before.pre[t], p))
    && (forall t: nat, p: nat :: t < |after.post| ==>
        Weight(after.post[t], p) == if Put(t, p) in arcs then 1 else Weight(before.post[t], p))
  }

  function WithArc(net: Net, a: Arc): Net
    requires a.t < |net.pre| && a.t < |net.post|
  {
    match a
    case Take(p, t) =>
      var arcs: map<nat, nat> := net.pre[t][p := 1];
      net.(pre := net.pre[t := arcs])
    case Put(t, p) =>
      var arcs: map<nat, nat> := net.post[t][p := 1];
      net.(post := net.post[t := arcs])
  }

  lemma InsertedMore(before: Net, net: Net, arcs: set<Arc>, a: Arc)
    requires Inserted(before, net, arcs) && a.t < |net.pre| && a.t < |net.post|
    ensures Inserted(before, WithArc(net, a), arcs + {a})
  {
    var after := WithArc(net, a);
    forall t: nat, p: nat | t < |after.pre|
      ensures Weight(after.pre[t], p) == if Take(p, t) in arcs + {a} then 1 else Weight(before.pre[t], p)
    {
      assert Weight(after.pre[t], p) == if a == Take(p, t) then 1 else Weight(net.pre[t], p);
    }
    forall t: nat, p: nat | t < |after.post|
      ensures Weight(after.post[t], p) == if Put(t, p) in arcs + {a} then 1 else Weight(before.post[t], p)
    {
      assert Weight(after.post[t], p) == if a == Put(t, p) then 1 else Weight(net.post[t], p);
    }
  }

  lemma WithArcWellFormed(net: Net, a: Arc)
    requires WellFormedNet(net) && ArcInside(net, a)
    ensures WellFormedNet(WithArc(net, a))
  {
  }

  class TaskNet {
    var net: Net

    constructor (net: Net)
      ensures this.net == net
    {
      this.net := net;
    }

    method CreateTransition() returns (t: nat)
      requires WellFormedNet(net)
      modifies this
      ensures net == WithTransition(old(net)) && t == |old(net.pre)| && WellFormedNet(net)
    {
      t := |net.pre|;
      net := WithTransition(net);
    }

    method CreatePlace(tokens: nat) returns (p: nat)
      requires WellFormedNet(net)
      modifies this
      ensures net == WithPlace(old(net), tokens) && p == old(net.places) && WellFormedNet(net)
    {
      p := net.places;
      net := WithPlace(net, tokens);
    }

    /** Creates the collected arcs. */
    method CreateArcs(arcs: set<Arc>)
      requires WellFormedNet(net) && forall a :: a in arcs ==> ArcInside(net, a)
      modifies this
      ensures WellFormedNet(net) && Inserted(old(net), net, arcs)
    {
      hide WithArc;
      var rest := arcs;
      ghost var before := net;
      while rest != {}
        invariant WellFormedNet(net) && rest <= arcs && Inserted(before, net, arcs - rest)
        invariant forall a :: a in arcs ==> ArcInside(net, a)
      {
        var a :| a in rest;
        InsertedMore(before, net, arcs - rest, a);
        WithArcWellFormed(net, a);
        assert arcs - (rest - {a}) == (arcs - rest) + {a};
        net := WithArc(net, a);
        rest := rest - {a};
      }
    }
  }

  // ---------- the arcs of a gadget ----------

  function TakeArcs(arcs: map<nat, nat>, t: nat): set<Arc> {
    set p | p in arcs :: Take(p, t)
  }

  function PutArcs(arcs: map<nat, nat>, t: nat): set<Arc> {
    set p | p in arcs :: Put(t, p)
  }

  /** The arcs of the guard places base, base + 1, ... of the given transitions. */
  function GuardArcs(base: nat, ts: seq<nat>, hC: nat): set<Arc> {
    if ts == [] then {}
    else GuardArcs(base, ts[..|ts| - 1], hC) + OneGuard(base + |ts| - 1, ts[|ts| - 1], hC)
  }

  function OneGuard(a: nat, t: nat, hC: nat): set<Arc> {
    {Put(t, a), Take(a, t), Take(a, hC)}
  }

  lemma {:induction false} GuardArcsMembers(base: nat, ts: seq<nat>, hC: nat, p: nat, t: nat)
    ensures Take(p, t) in GuardArcs(base, ts, hC) <==> base <= p < base + |ts| && (t == hC || t == ts[p - base])
    ensures Put(t, p) in GuardArcs(base, ts, hC) <==> base <= p < base + |ts| && t == ts[p - base]
  {
    if ts != [] {
      GuardArcsMembers(base, ts[..|ts| - 1], hC, p, t);
    }
  }

  /** Net with only its arc weights flattened to 1. */
  function Flat(arcs: map<nat, nat>): map<nat, nat> {
    map p | p in arcs :: 1
  }

  /** The arcs of a gadget. */
  ghost predicate GadgetArc(takes: map<nat, nat>, puts: map<nat, nat>, lowPre: map<nat, nat>, lC: nat, hC: nat,
                            fired: nat, goal: nat, guards: map<nat, nat>, a: Arc) {
    match a
    case Take(p, t) =>
      || (t == hC && (p in takes || p in guards)) || (t == lC && (p in lowPre || p == fired))
      || (p in guards && guards[p] == t)
    case Put(t, p) =>
      || (t == hC && (p in puts || p == fired)) || (t == lC && p == goal)
      || (p in guards && guards[p] == t)
  }

  /** ext is net with the new places and transitions and the arcs of the gadget. */
  ghost predicate Assembled(net: Net, grown: Net, ext: Net, arcs: set<Arc>, takes: map<nat, nat>, puts: map<nat, nat>,
                            lowPre: map<nat, nat>,
                            fired: nat, goal: nat, guards: map<nat, nat>) {
    && WellFormedNet(net) && WellFormedNet(ext) && Inserted(grown, ext, arcs)
    && grown.pre == net.pre + [map[], map[]] && grown.post == net.post + [map[], map[]]
    && NewPlaces(net, grown, fired, goal, guards)
    && Inside(takes, net.places) && Inside(puts, net.places) && Inside(lowPre, net.places)
    && forall a :: a in arcs <==> GadgetArc(Flat(takes), Flat(puts), Flat(lowPre), |net.pre|, |net.pre| + 1, fired,
                                            goal, guards, a)
  }

  lemma OldWeights(net: Net, grown: Net, ext: Net, arcs: set<Arc>, takes: map<nat, nat>, puts: map<nat, nat>,
                   lowPre: map<nat, nat>,
                   fired: nat, goal: nat, guards: map<nat, nat>, t: nat, p: nat)
    requires Assembled(net, grown, ext, arcs, takes, puts, lowPre, fired, goal, guards) && t < |net.pre|
    ensures Weight(ext.pre[t], p) == GuardedWeight(net.pre[t], guards, t, p)
    ensures Weight(ext.post[t], p) == GuardedWeight(net.post[t], guards, t, p)
  {
    hide Tokens, Flat, Inside;
    assert Take(p, t) in arcs <==> p in guards && guards[p] == t;
    assert Put(t, p) in arcs <==> p in guards && guards[p] == t;
    assert grown.pre[t] == net.pre[t] && grown.post[t] == net.post[t];
    assert p in guards ==> Weight(net.pre[t], p) == 0 && Weight(net.post[t], p) == 0;
  }

  lemma NewWeights(net: Net, grown: Net, ext: Net, arcs: set<Arc>, takes: map<nat, nat>, puts: map<nat, nat>,
                   lowPre: map<nat, nat>,
                   fired: nat, goal: nat, guards: map<nat, nat>, p: nat)
    requires Assembled(net, grown, ext, arcs, takes, puts, lowPre, fired, goal, guards)
    ensures |ext.pre| == |ext.post| == |net.pre| + 2
    ensures Weight(ext.pre[|net.pre|], p) == Weight(Flat(lowPre), p) + One(p == fired)
    ensures Weight(ext.post[|net.pre|], p) == One(p == goal)
    ensures Weight(ext.pre[|net.pre| + 1], p) == Weight(Flat(takes), p) + One(p in guards)
    ensures Weight(ext.post[|net.pre| + 1], p) == Weight(Flat(puts), p) + One(p == fired)
  {
    hide Tokens;
    var lC, hC := |net.pre|, |net.pre| + 1;
    assert p >= net.places ==> p !in takes && p !in puts && p !in lowPre;
    assert Take(p, lC) in arcs <==> p in lowPre || p == fired;
    assert Put(lC, p) in arcs <==> p == goal;
    assert grown.pre[lC] == map[] && grown.post[lC] == map[];
    assert Take(p, hC) in arcs <==> p in takes || p in guards;
    assert Put(hC, p) in arcs <==> p in puts || p == fired;
    assert grown.pre[hC] == map[] && grown.post[hC] == map[];
  }

  /** Adding these arcs to the net with the new places and transitions gives the gadget. */
  lemma AssembledIsGadget(net: Net, grown: Net, ext: Net, arcs: set<Arc>, takes: map<nat, nat>, puts: map<nat, nat>,
                          lowPre: map<nat, nat>,
                          fired: nat, goal: nat, guards: map<nat, nat>)
    requires Assembled(net, grown, ext, arcs, takes, puts, lowPre, fired, goal, guards)
    ensures Gadget(net, ext, Flat(takes), Flat(puts), Flat(lowPre), fired, goal, guards)
  {
    hide Tokens, GadgetArc, Weight;
    forall t: nat, p: nat | t < |net.pre| && p < ext.places
      ensures Weight(ext.pre[t], p) == GuardedWeight(net.pre[t], guards, t, p)
      ensures Weight(ext.post[t], p) == GuardedWeight(net.post[t], guards, t, p)
    {
      OldWeights(net, grown, ext, arcs, takes, puts, lowPre, fired, goal, guards, t, p);
    }
    forall p: nat | p < ext.places
      ensures Weight(ext.pre[|net.pre|], p) == Weight(Flat(lowPre), p) + One(p == fired)
      ensures Weight(ext.post[|net.pre|], p) == One(p == goal)
      ensures Weight(ext.pre[|net.pre| + 1], p) == Weight(Flat(takes), p) + One(p in guards)
      ensures Weight(ext.post[|net.pre| + 1], p) == Weight(Flat(puts), p) + One(p == fired)
    {
      NewWeights(net, grown, ext, arcs, takes, puts, lowPre, fired, goal, guards, p);
    }
  }

  // ---------- the nets and arcs that the patterns build ----------

  /** net with k more places that hold one token each. */
  function MorePlaces(net: Net, k: nat): Net {
    net.(places := net.places + k, m0 := net.m0 + seq(k, _ => 1))
  }

  lemma OneMorePlace(net: Net, k: nat)
    ensures WithPlace(MorePlaces(net, k), 1) == MorePlaces(net, k + 1)
  {
    assert (net.m0 + seq(k, _ => 1)) + [1] == net.m0 + seq(k + 1, _ => 1);
  }

  lemma NoMorePlace(net: Net)
    ensures MorePlaces(net, 0) == net
  {
    assert net.m0 + seq(0, _ => 1) == net.m0;
  }

  /** The guard places base, base + 1, ... of the transitions ts. */
  function GuardMap(base: nat, ts: seq<nat>): (r: map<nat, nat>)
    ensures forall p :: p in r <==> base <= p < base + |ts|
    ensures forall p :: p in r ==> r[p] == ts[p - base]
  {
    if ts == [] then map[] else GuardMap(base, ts[..|ts| - 1])[base + |ts| - 1 := ts[|ts| - 1]]
  }

  lemma GuardMapValues(base: nat, ts: seq<nat>)
    ensures forall t :: t in GuardMap(base, ts).Values <==> t in ts
  {
    var guards := GuardMap(base, ts);
    forall t ensures t in guards.Values <==> t in ts {
      if t in ts {
        var i :| 0 <= i < |ts| && ts[i] == t;
        assert guards[base + i] == t;
      }
    }
  }

  lemma GuardMapArcs(base: nat, r: seq<nat>, d: seq<nat>, hC: nat, p: nat, t: nat)
    ensures var arcs := GuardArcs(base, r, hC) + GuardArcs(base + |r|, d, hC);
            var guards := GuardMap(base, r + d);
            && (Take(p, t) in arcs <==> p in guards && (t == hC || guards[p] == t))
            && (Put(t, p) in arcs <==> p in guards && guards[p] == t)
  {
    GuardArcsMembers(base, r, hC, p, t);
    GuardArcsMembers(base + |r|, d, hC, p, t);
  }

  /** The arcs that both patterns collect. */
  function PatternArcs(takes: map<nat, nat>, puts: map<nat, nat>, lowPre: map<nat, nat>, lC: nat, hC: nat, fired: nat,
                       goal: nat,
                       base: nat, r: seq<nat>, d: seq<nat>): set<Arc> {
    TakeArcs(takes, hC) + PutArcs(puts, hC) + TakeArcs(lowPre, lC) + GuardArcs(base, r, hC)
      + GuardArcs(base + |r|, d, hC)
    + {Put(hC, fired), Take(fired, lC), Put(lC, goal)}
  }

  lemma PatternArcsMembers(takes: map<nat, nat>, puts: map<nat, nat>, lowPre: map<nat, nat>, lC: nat, hC: nat,
                           fired: nat, goal: nat,
                           base: nat, r: seq<nat>, d: seq<nat>, a: Arc)
    ensures a in PatternArcs(takes, puts, lowPre, lC, hC, fired, goal, base, r, d) <==>
              GadgetArc(Flat(takes), Flat(puts), Flat(lowPre), lC, hC, fired, goal, GuardMap(base, r + d), a)
  {
    hide GuardArcs, GuardMap;
    match a
    case Take(p, t) => GuardMapArcs(base, r, d, hC, p, t);
    case Put(t, p) => GuardMapArcs(base, r, d, hC, p, t);
  }

  /** One more guard place. */
  lemma GadgetArcMore(takes: map<nat, nat>, puts: map<nat, nat>, lowPre: map<nat, nat>, lC: nat, hC: nat, fired: nat,
                      goal: nat,
                      guards: map<nat, nat>, e: nat, h: nat, a: Arc)
    requires e !in guards
    ensures GadgetArc(takes, puts, lowPre, lC, hC, fired, goal, guards[e := h], a) <==>
              GadgetArc(takes, puts, lowPre, lC, hC, fired, goal, guards, a) || a in OneGuard(e, h, hC)
  {
  }

  lemma GadgetArcInside(net: Net, grown: Net, takes: map<nat, nat>, puts: map<nat, nat>, lowPre: map<nat, nat>,
                        fired: nat, goal: nat, guards: map<nat, nat>, a: Arc)
    requires WellFormedNet(net) && NewPlaces(net, grown, fired, goal, guards)
    requires |grown.pre| == |grown.post| == |net.pre| + 2
    requires Inside(takes, net.places) && Inside(puts, net.places) && Inside(lowPre, net.places)
    requires GadgetArc(Flat(takes), Flat(puts), Flat(lowPre), |net.pre|, |net.pre| + 1, fired, goal, guards, a)
    ensures ArcInside(grown, a)
  {
    hide Tokens;
  }

  /** The causal pattern's places: fired, goal, and the guards. */
  function CausalPlaces(net: Net, k: nat): Net {
    MorePlaces(WithPlace(WithPlace(WithTransition(WithTransition(net)), 0), 0), k)
  }

  /** The conflict pattern's places: fired, enabled, goal, and the guards. */
  function ConflictPlaces(net: Net, k: nat): Net {
    MorePlaces(WithPlace(WithPlace(WithPlace(WithTransition(WithTransition(net)), 0), 1), 0), k)
  }

  lemma GrownNets(net: Net, k: nat)
    ensures CausalPlaces(net, k) == Net(net.places + 2 + k, net.pre + [map[], map[]], net.post + [map[], map[]],
                                        net.m0 + [0, 0] + seq(k, _ => 1))
    ensures ConflictPlaces(net, k) == Net(net.places + 3 + k, net.pre + [map[], map[]], net.post + [map[], map[]],
                                          net.m0 + [0, 1, 0] + seq(k, _ => 1))
  {
    assert net.pre + [map[]] + [map[]] == net.pre + [map[], map[]];
    assert net.post + [map[]] + [map[]] == net.post + [map[], map[]];
    assert net.m0 + [0] + [0] == net.m0 + [0, 0];
    assert net.m0 + [0] + [1] + [0] == net.m0 + [0, 1, 0];
  }

  lemma CausalPlacesOK(net: Net, ts: seq<nat>)
    requires |net.m0| == net.places && forall i :: 0 <= i < |ts| ==> ts[i] < |net.pre|
    ensures NewPlaces(net, CausalPlaces(net, |ts|), net.places, net.places + 1, GuardMap(net.places + 2, ts))
  {
    hide *;
    GrownNets(net, |ts|);
    GrownMarking(net.m0, [0, 0], |ts|);
    PlacesOK(net, CausalPlaces(net, |ts|), net.places, net.places + 1, GuardMap(net.places + 2, ts));
  }

  lemma ConflictPlacesOK(net: Net, ts: seq<nat>, h: nat)
    requires |net.m0| == net.places && h < |net.pre| && forall i :: 0 <= i < |ts| ==> ts[i] < |net.pre|
    ensures NewPlaces(net, ConflictPlaces(net, |ts|), net.places, net.places + 2,
                      GuardMap(net.places + 3, ts)[net.places + 1 := h])
  {
    hide *;
    var n := net.places;
    ConflictMarking(net, |ts|);
    ConflictGuards(n, ts, h, |net.pre|);
    PlacesOK(net, ConflictPlaces(net, |ts|), n, n + 2, GuardMap(n + 3, ts)[n + 1 := h]);
  }

  lemma ConflictMarking(net: Net, k: nat)
    requires |net.m0| == net.places
    ensures var n, grown := net.places, ConflictPlaces(net, k);
            && |grown.m0| == grown.places == n + 3 + k && grown.m0[..n] == net.m0
            && grown.m0[n] == 0 && grown.m0[n + 1] == 1 && grown.m0[n + 2] == 0
            && forall p :: n + 3 <= p < grown.places ==> grown.m0[p] == 1
  {
    hide *;
    GrownNets(net, k);
    var extra, n := [0, 1, 0], net.places;
    GrownMarking(net.m0, extra, k);
    var m := net.m0 + extra + seq(k, _ => 1);
    assert m[n + 0] == extra[0] && m[n + 1] == extra[1] && m[n + 2] == extra[2];
  }

  lemma ConflictGuards(n: nat, ts: seq<nat>, h: nat, k: nat)
    requires h < k && forall i :: 0 <= i < |ts| ==> ts[i] < k
    ensures var guards := GuardMap(n + 3, ts)[n + 1 := h];
            && (forall p :: p in guards <==> p == n + 1 || n + 3 <= p < n + 3 + |ts|)
            && forall p :: p in guards ==> guards[p] < k
  {
    hide *;
  }

  lemma PlacesOK(net: Net, grown: Net, fired: nat, goal: nat, guards: map<nat, nat>)
    requires |net.m0| == net.places && |grown.m0| == grown.places && net.places <= grown.places
    requires grown.m0[..net.places] == net.m0
    requires net.places <= fired < grown.places && net.places <= goal < grown.places && fired != goal
    requires forall p :: p in guards <==> net.places <= p < grown.places && p != fired && p != goal
    requires forall p :: p in guards ==> guards[p] < |net.pre| && grown.m0[p] == 1
    requires grown.m0[fired] == 0 && grown.m0[goal] == 0
    ensures NewPlaces(net, grown, fired, goal, guards)
  {
  }

  lemma GrownMarking(m: seq<nat>, extra: seq<nat>, k: nat)
    ensures var grown := m + extra + seq(k, _ => 1);
            && |grown| == |m| + |extra| + k && grown[..|m|] == m
            && (forall i :: 0 <= i < |extra| ==> grown[|m| + i] == extra[i])
            && forall p :: |m| + |extra| <= p < |grown| ==> grown[p] == 1
  {
  }
}
