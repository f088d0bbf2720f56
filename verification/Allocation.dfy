/** Cycle-free allocations of siphons, and the nodes that carry them. */
module Allocations {
  import opened Counting
  import opened Lists
  import opened PetriNets

  /** order lists the allocated places as they were removed from the siphon: each
      allocated transition puts tokens only on siphon places removed before. */
  ghost predicate CycleFree(net: Net, siphon: set<nat>, alloc: map<nat, nat>, order: seq<nat>) {
    && Distinct(order)
    && (forall i :: 0 <= i < |order| ==> order[i] in alloc && order[i] in siphon)
    && (forall i :: 0 <= i < |order| ==> AllocatedAt(net, siphon, alloc[order[i]], order[i], order[..i]))
  }

  ghost predicate AllocatedAt(net: Net, siphon: set<nat>, t: nat, p: nat, before: seq<nat>) {
    && t < |net.pre| && t < |net.post| && p in net.pre[t]
    && forall q :: q in net.post[t] && q in siphon ==> q in before
  }

  /** The allocation is defined exactly on the siphon without its maximal trap. */
  ghost predicate TotalAllocation(net: Net, siphon: set<nat>, maxtrap: set<nat>, alloc: map<nat, nat>,
                                  order: seq<nat>) {
    && CycleFree(net, siphon, alloc, order)
    && (forall p :: p in order <==> p in siphon && p !in maxtrap)
    && alloc.Keys == siphon - maxtrap
  }

  /** Every transition that takes from p puts a token on S. */
  ghost predicate Blocked(net: Net, S: set<nat>, p: nat) {
    forall t :: 0 <= t < |net.pre| && t < |net.post| && p in net.pre[t] ==> Meets(net.post[t], S)
  }

  /** If no place outside the maximal trap can be removed, the trap was not maximal. */
  lemma AllBlockedIsTrap(net: Net, siphon: set<nat>, maxtrap: set<nat>, diff: set<nat>)
    requires MaximalTrap(net, siphon, maxtrap) && diff <= siphon - maxtrap
    requires forall p :: p in diff ==> Blocked(net, maxtrap + diff, p)
    ensures diff == {}
  {
    hide Meets;
    var S := maxtrap + diff;
    forall t | 0 <= t < |net.pre| && t < |net.post| && Meets(net.pre[t], S) ensures Meets(net.post[t], S) {
      MeetsUnion(net, t, maxtrap, diff);
    }
    assert Trap(net, S) && S <= siphon;
    assert S <= maxtrap;
  }

  lemma MeetsUnion(net: Net, t: nat, maxtrap: set<nat>, diff: set<nat>)
    requires t < |net.pre| && t < |net.post| && Meets(net.pre[t], maxtrap + diff) && Trap(net, maxtrap)
    requires forall p :: p in diff ==> Blocked(net, maxtrap + diff, p)
    ensures Meets(net.post[t], maxtrap + diff)
  {
    var p :| p in net.pre[t] && p in maxtrap + diff;
    if p in maxtrap {
      assert Meets(net.pre[t], maxtrap);
      var q :| q in net.post[t] && q in maxtrap;
      assert q in maxtrap + diff;
    } else {
      assert Blocked(net, maxtrap + diff, p);
    }
  }

  /** A total allocation leaves no trap outside maxtrap: of such a trap's places the
      one removed first would have to put its token outside the trap. */
  lemma AllocationMeansMaximal(net: Net, siphon: set<nat>, maxtrap: set<nat>, alloc: map<nat, nat>, order: seq<nat>)
    requires Trap(net, maxtrap) && maxtrap <= siphon
    requires TotalAllocation(net, siphon, maxtrap, alloc, order)
    ensures MaximalTrap(net, siphon, maxtrap)
  {
    forall Q: set<nat> | Q <= siphon && Trap(net, Q) ensures Q <= maxtrap {
      NoTrapOutside(net, siphon, alloc, order, Q, |order|);
      assert forall p :: p in order ==> p in order[..|order|];
    }
  }

  lemma MemberMeets(arcs: map<nat, nat>, S: set<nat>, p: nat)
    requires p in arcs
    ensures p in S ==> Meets(arcs, S)
  {
  }

  lemma {:induction false} NoTrapOutside(net: Net, siphon: set<nat>, alloc: map<nat, nat>, order: seq<nat>, Q: set<nat>,
                                         k: nat)
    requires CycleFree(net, siphon, alloc, order) && Trap(net, Q) && Q <= siphon && k <= |order|
    ensures forall p :: p in order[..k] ==> p !in Q
  {
    if k > 0 {
      NoTrapOutside(net, siphon, alloc, order, Q, k - 1);
      var p := order[k - 1];
      var t := alloc[p];
      assert AllocatedAt(net, siphon, t, p, order[..k - 1]);
      MemberMeets(net.pre[t], Q, p);
      assert !Meets(net.post[t], Q);
      assert order[..k] == order[..k - 1] + [p];
    }
  }

  /** Removing one more place keeps the allocation cycle-free. */
  lemma CycleFreeMore(net: Net, siphon: set<nat>, alloc: map<nat, nat>, order: seq<nat>, p: nat, t: nat)
    requires CycleFree(net, siphon, alloc, order) && p in siphon && p !in order
    requires AllocatedAt(net, siphon, t, p, order)
    ensures CycleFree(net, siphon, alloc[p := t], order + [p])
  {
    hide AllocatedAt;
    var order' := order + [p];
    forall i | 0 <= i < |order'| ensures AllocatedAt(net, siphon, alloc[p := t][order'[i]], order'[i], order'[..i]) {
      if i < |order| {
        assert order'[..i] == order[..i];
        assert order[i] in order;
      } else {
        assert order'[..i] == order;
      }
    }
  }

  /** The recorded postset of the siphon: its transitions, each with one of its siphon places. */
  ghost predicate PostsetOK(net: Net, siphon: set<nat>, postsiphon: map<nat, nat>) {
    && (forall t: nat :: t in postsiphon <==> t < |net.pre| && Meets(net.pre[t], siphon))
    && (forall t: nat :: t in postsiphon ==> t < |net.pre| && postsiphon[t] in net.pre[t] && postsiphon[t] in siphon)
  }

  class WNode {
    const net: Net
    /** The defining place, or None for the initial node. */
    var P: Option<nat>
    var siphon: set<nat>
    var maxtrap: set<nat>
    var alloc: map<nat, nat>
    /** Every transition of the siphon's postset, with a siphon place in its preset. */
    var postsiphon: map<nat, nat>
    ghost var order: seq<nat>

    constructor (net: Net, P: Option<nat>)
      ensures this.net == net && this.P == P && siphon == maxtrap == {} && alloc == postsiphon == map[] && order == []
    {
      this.net := net;
      this.P := P;
      siphon, maxtrap, alloc, postsiphon, order := {}, {}, map[], map[], [];
    }

    /** The smallest element of diff that is not below from. */
    method NextPlace(diff: set<nat>, from: nat) returns (p: Option<nat>)
      requires forall q :: q in diff ==> q < net.places
      ensures p.Some? ==> p.value in diff && p.value >= from && forall q :: q in diff && q >= from ==> q >= p.value
      ensures p.None? ==> forall q :: q in diff ==> q < from
    {
      var k := from;
      while k < net.places
        invariant from <= k
        invariant forall q :: q in diff && q >= from ==> q >= k
      {
        if k in diff {
          return Some(k);
        }
        k := k + 1;
      }
      return None;
    }

    /** A transition that takes from p and puts nothing on S. */
    method FindTransition(p: nat, S: set<nat>) returns (r: Option<nat>)
      requires WellFormedNet(net)
      ensures r.Some? ==> r.value < |net.pre| && p in net.pre[r.value] && !Meets(net.post[r.value], S)
      ensures r.None? ==> Blocked(net, S, p)
    {
      hide Meets;
      for t := 0 to |net.pre|
        invariant forall u :: 0 <= u < t && p in net.pre[u] ==> Meets(net.post[u], S)
      {
        if p in net.pre[t] {
          var meets := PutsOn(t, S);
          if !meets {
            return Some(t);
          }
        }
      }
      return None;
    }

    method PutsOn(t: nat, S: set<nat>) returns (b: bool)
      requires WellFormedNet(net) && t < |net.post|
      ensures b <==> Meets(net.post[t], S)
    {
      for q := 0 to net.places
        invariant forall r :: r in net.post[t] && r < q ==> r !in S
      {
        if q in net.post[t] {
          if q in S {
            return true;
          }
        }
      }
      return false;
    }

    /** Computes a cycle-free allocation of the siphon without its maximal trap.
        The iterator never runs past the last place because the trap is maximal. */
    method ComputeAllocation()
      requires WellFormedNet(net) && MaximalTrap(net, siphon, maxtrap)
      requires forall p :: p in siphon ==> p < net.places
      modifies this`alloc, this`order
      ensures TotalAllocation(net, siphon, maxtrap, alloc, order)
    {
      hide Meets, CycleFree, Blocked, MaximalTrap;
      alloc := map[];
      order := [];
      NothingAllocated(net, siphon);
      var aset := siphon;
      var diff := siphon - maxtrap;
      MaximalTrapInside(net, siphon, maxtrap);
      var pit: Option<nat> := None;
      while diff != {}
        invariant diff <= siphon - maxtrap && aset == maxtrap + diff
        invariant forall p :: p in order <==> p in siphon && p !in aset
        invariant alloc.Keys == siphon - aset && CycleFree(net, siphon, alloc, order)
        invariant pit.Some? ==> pit.value < net.places
        invariant pit.Some? ==> forall p :: p in diff && p <= pit.value ==> Blocked(net, aset, p)
        decreases diff, net.places - (if pit.Some? then pit.value + 1 else 0)
      {
        var next := NextPlace(diff, if pit.Some? then pit.value + 1 else 0);
        if next.None? {
          AllBlockedIsTrap(net, siphon, maxtrap, diff);
        }
        var p := next.value;
        var t := FindTransition(p, aset);
        if t.Some? {
          AllocateNext(net, siphon, aset, order, p, t.value);
          CycleFreeMore(net, siphon, alloc, order, p, t.value);
          alloc := alloc[p := t.value];
          order := order + [p];
          diff := diff - {p};
          aset := aset - {p};
          pit := None;
        } else {
          pit := next;
        }
      }
    }

    /** Collects the transitions that take from the siphon. */
    method ComputeSiphonPostset()
      requires WellFormedNet(net) && forall p :: p in siphon ==> p < net.places
      modifies this`postsiphon
      ensures PostsetOK(net, siphon, postsiphon)
    {
      postsiphon := map[];
      for p := 0 to net.places
        invariant forall t: nat :: t in postsiphon <==>
                  t < |net.pre| && exists q :: q in net.pre[t] && q in siphon && q < p
        invariant forall t :: t in postsiphon ==> postsiphon[t] in net.pre[t] && postsiphon[t] in siphon
      {
        if p in siphon {
          AddPostset(p);
        }
      }
      forall t: nat ensures t in postsiphon <==> t < |net.pre| && Meets(net.pre[t], siphon) { }
    }

    method AddPostset(p: nat)
      requires p in siphon && forall t: nat :: t in postsiphon ==>
               t < |net.pre| && postsiphon[t] in net.pre[t] && postsiphon[t] in siphon
      modifies this`postsiphon
      ensures forall t: nat :: t in postsiphon <==> t in old(postsiphon) || (t < |net.pre| && p in net.pre[t])
      ensures forall t: nat :: t in postsiphon ==>
              t < |net.pre| && postsiphon[t] in net.pre[t] && postsiphon[t] in siphon
    {
      for t := 0 to |net.pre|
        invariant forall u: nat :: u in postsiphon <==> u in old(postsiphon) || (u < t && p in net.pre[u])
        invariant forall u: nat :: u in postsiphon ==>
                  u < |net.pre| && postsiphon[u] in net.pre[u] && postsiphon[u] in siphon
      {
        if p in net.pre[t] {
          postsiphon := postsiphon[t := p];
        }
      }
    }

    /** Whether the siphon would allow a transition with this preset to fire. */
    method IsActivated(m: seq<nat>, tpre: map<nat, nat>) returns (b: bool)
      requires |m| == net.places && forall p :: p in tpre ==> p < net.places
      ensures b <==> forall p :: p in tpre && p in siphon ==> tpre[p] <= Tokens(m, p)
    {
      for p := 0 to net.places
        invariant forall q :: q in tpre && q in siphon && q < p ==> tpre[q] <= Tokens(m, q)
      {
        if p in tpre && p in siphon {
          if m[p] < tpre[p] {
            return false;
          }
        }
      }
      return true;
    }

    /** The transitions of the siphon's postset that the siphon would allow to fire. */
    method GetActivated(m: seq<nat>, pre: map<nat, map<nat, nat>>) returns (result: set<nat>)
      requires WellFormedNet(net) && |m| == net.places
      requires PostsetOK(net, siphon, postsiphon)
      requires forall t: nat :: t < |net.pre| ==> t in pre && pre[t] == net.pre[t]
      ensures forall t :: t in result <==> t in postsiphon && !LacksIn(net, siphon, m, t)
    {
      result := {};
      for t := 0 to |net.pre|
        invariant forall u :: u in result <==> u in postsiphon && u < t && !LacksIn(net, siphon, m, u)
      {
        if t in postsiphon {
          var b := IsActivated(m, pre[t]);
          if b {
            result := result + {t};
          }
        }
      }
    }

    /** t puts a token on a defining place: the node's own place, or any place of the
        siphon at the initial node. */
    ghost predicate Defining(t: nat)
      reads this
    {
      t < |net.post| && if P.Some? then P.value in net.post[t] else Meets(net.post[t], siphon)
    }

    /** Whether t puts a token on a defining place of the node. */
    method ProducesDefiningToken(t: nat) returns (b: bool)
      requires WellFormedNet(net) && t < |net.post|
      ensures b <==> Defining(t)
      ensures b <==> if P.Some? then P.value in net.post[t] else exists p :: p in siphon && p in net.post[t]
    {
      if P.Some? {
        b := P.value in net.post[t];
      } else {
        b := PutsOn(t, siphon);
      }
    }
  }

  lemma NothingAllocated(net: Net, siphon: set<nat>)
    ensures CycleFree(net, siphon, map[], [])
  {
  }

  lemma MaximalTrapInside(net: Net, siphon: set<nat>, maxtrap: set<nat>)
    requires MaximalTrap(net, siphon, maxtrap)
    ensures maxtrap <= siphon
  {
  }

  lemma AllocateNext(net: Net, siphon: set<nat>, aset: set<nat>, order: seq<nat>, p: nat, t: nat)
    requires forall q :: q in order <==> q in siphon && q !in aset
    requires t < |net.pre| && t < |net.post| && p in net.pre[t] && !Meets(net.post[t], aset)
    ensures AllocatedAt(net, siphon, t, p, order)
  {
  }

  // ---------- the potential of a marking ----------

  /** The tokens on the first k places of the order, weighted by base^rank. */
  ghost function Potential(base: nat, order: seq<nat>, m: seq<nat>, k: nat): nat
    requires k <= |order|
  {
    if k == 0 then 0
    else Potential(base, order, m, k - 1) + Pow(base, k - 1) * Tokens(m, order[k - 1])
  }

  ghost function Tokens(m: seq<nat>, p: nat): nat {
    if p < |m| then m[p] else 0
  }

  lemma MulAtMost(c: nat, x: nat, y: nat, w: nat)
    requires y <= x + w
    ensures c * y <= c * x + c * w
  {
    assert c * y <= c * (x + w);
  }

  lemma MulMono(c: nat, x: nat, y: nat)
    requires y <= x
    ensures c * y <= c * x
  {
  }

  lemma MulLess(c: nat, x: nat, y: nat)
    requires y + 1 <= x
    ensures c * y + c <= c * x
  {
    assert c * (y + 1) <= c * x;
  }

  lemma PowStep(w: nat, k: nat)
    requires k > 0
    ensures Pow(w + 1, k) == Pow(w + 1, k - 1) * w + Pow(w + 1, k - 1)
  {
    var c := Pow(w + 1, k - 1);
    assert Pow(w + 1, k) == (w + 1) * c;
    assert (w + 1) * c == c * w + c;
  }

  /** Places removed before gain at most w tokens each. */
  lemma {:induction false} PotentialBelow(w: nat, order: seq<nat>, m: seq<nat>, m': seq<nat>, k: nat)
    requires k <= |order|
    requires forall i :: 0 <= i < k ==> Tokens(m', order[i]) <= Tokens(m, order[i]) + w
    ensures Potential(w + 1, order, m', k) + 1 <= Potential(w + 1, order, m, k) + Pow(w + 1, k)
  {
    if k > 0 {
      PotentialBelow(w, order, m, m', k - 1);
      MulAtMost(Pow(w + 1, k - 1), Tokens(m, order[k - 1]), Tokens(m', order[k - 1]), w);
      PowStep(w, k);
    }
  }

  /** The potential drops if the place of rank r loses a token, the places above
      it gain none, and those below it gain at most w each. */
  lemma {:induction false} PotentialDrops(w: nat, order: seq<nat>, m: seq<nat>, m': seq<nat>, r: nat, k: nat)
    requires r < k <= |order|
    requires forall i :: 0 <= i < r ==> Tokens(m', order[i]) <= Tokens(m, order[i]) + w
    requires Tokens(m', order[r]) + 1 <= Tokens(m, order[r])
    requires forall i :: r < i < k ==> Tokens(m', order[i]) <= Tokens(m, order[i])
    ensures Potential(w + 1, order, m', k) < Potential(w + 1, order, m, k)
  {
    if k == r + 1 {
      PotentialBelow(w, order, m, m', r);
      MulLess(Pow(w + 1, r), Tokens(m, order[r]), Tokens(m', order[r]));
    } else {
      PotentialDrops(w, order, m, m', r, k - 1);
      MulMono(Pow(w + 1, k - 1), Tokens(m, order[k - 1]), Tokens(m', order[k - 1]));
    }
  }

  // ---------- the largest output weight ----------

  ghost function Larger(x: nat, y: nat): nat {
    if x < y then y else x
  }

  /** The largest weight of the arcs to the first n places. */
  ghost function LargestArc(arcs: map<nat, nat>, n: nat): (w: nat)
    ensures forall p: nat :: p < n ==> Weight(arcs, p) <= w
  {
    if n == 0 then 0 else Larger(LargestArc(arcs, n - 1), Weight(arcs, n - 1))
  }

  /** The largest weight of the output arcs of the first k transitions. */
  ghost function LargestOutput(net: Net, k: nat): (w: nat)
    requires k <= |net.post|
    ensures forall t: nat, p: nat :: t < k && p < net.places ==> Weight(net.post[t], p) <= w
  {
    if k == 0 then 0 else Larger(LargestOutput(net, k - 1), LargestArc(net.post[k - 1], net.places))
  }

  /** The potential that emptying a siphon consumes. With w as the largest output weight of
      the net, a token on the place of rank i counts (w + 1)^i; in ordinary nets that is at
      most 2^i. */
  ghost function Energy(net: Net, order: seq<nat>, m: seq<nat>): nat {
    Potential(LargestOutput(net, |net.post|) + 1, order, m, |order|)
  }

  lemma {:induction false} OrdinaryOutput(net: Net, k: nat)
    requires Ordinary(net) && k <= |net.post|
    ensures LargestOutput(net, k) <= 1
  {
    if k > 0 {
      OrdinaryOutput(net, k - 1);
      LargestUnit(net.post[k - 1], net.places);
    }
  }

  lemma {:induction false} LargestUnit(arcs: map<nat, nat>, n: nat)
    requires forall p :: p in arcs ==> arcs[p] == 1
    ensures LargestArc(arcs, n) <= 1
  {
    if n > 0 { LargestUnit(arcs, n - 1); }
  }

  /** Firing an allocated transition lowers the potential and leaves the maximal trap
      unmarked, whatever the arc weights. */
  lemma AllocatedFiring(net: Net, siphon: set<nat>, maxtrap: set<nat>, alloc: map<nat, nat>, order: seq<nat>,
                        m: seq<nat>, p: nat)
    requires WellFormedNet(net) && |m| == net.places
    requires TotalAllocation(net, siphon, maxtrap, alloc, order) && maxtrap <= siphon
    requires p in alloc && Enabled(net, m, alloc[p]) && !MarkedAt(m, maxtrap)
    ensures alloc[p] < |net.post| && |Fire(net, m, alloc[p])| == net.places
    ensures Energy(net, order, Fire(net, m, alloc[p])) < Energy(net, order, m)
    ensures !MarkedAt(Fire(net, m, alloc[p]), maxtrap)
  {
    var r := RankOf(net, siphon, maxtrap, alloc, order, p);
    EnabledInRange(net, m, alloc[p]);
    hide *;
    EnergyDrops(net, siphon, order, m, alloc[p], r);
    TrapUntouched(net, siphon, maxtrap, order, m, alloc[p], p, order[..r]);
  }

  lemma EnergyDrops(net: Net, siphon: set<nat>, order: seq<nat>, m: seq<nat>, t: nat, r: nat)
    requires WellFormedNet(net) && |m| == net.places && t < |net.pre| && t < |net.post| && Enabled(net, m, t)
    requires r < |order| && Distinct(order) && (forall i :: 0 <= i < |order| ==> order[i] in siphon)
    requires AllocatedAt(net, siphon, t, order[r], order[..r])
    ensures Energy(net, order, Fire(net, m, t)) < Energy(net, order, m)
  {
    hide LargestOutput, WellFormedNet, AllocatedAt, Enabled, Distinct, Potential, Tokens;
    var m', w := Fire(net, m, t), LargestOutput(net, |net.post|);
    forall i | 0 <= i < |order|
      ensures Tokens(m', order[i]) <= Tokens(m, order[i]) + (if i < r then w else 0)
      ensures i == r ==> Tokens(m', order[i]) + 1 <= Tokens(m, order[i])
    {
      AllocatedEffect(net, siphon, order, m, t, r, i);
    }
    PotentialDrops(w, order, m, m', r, |order|);
  }

  /** The rank at which p was removed from the siphon. */
  lemma RankOf(net: Net, siphon: set<nat>, maxtrap: set<nat>, alloc: map<nat, nat>, order: seq<nat>, p: nat)
    returns (r: nat)
    requires TotalAllocation(net, siphon, maxtrap, alloc, order) && p in alloc
    ensures r < |order| && order[r] == p && AllocatedAt(net, siphon, alloc[p], p, order[..r])
    ensures Distinct(order) && (forall i :: 0 <= i < |order| ==> order[i] in siphon)
    ensures forall q :: q in order ==> q !in maxtrap
  {
    hide AllocatedAt, Distinct;
    r :| 0 <= r < |order| && order[r] == p;
  }

  lemma TrapUntouched(net: Net, siphon: set<nat>, maxtrap: set<nat>, order: seq<nat>, m: seq<nat>, t: nat, p: nat,
                      before: seq<nat>)
    requires t < |net.post| && Enabled(net, m, t) && AllocatedAt(net, siphon, t, p, before) && maxtrap <= siphon
    requires before <= order && (forall q :: q in order ==> q !in maxtrap) && !MarkedAt(m, maxtrap)
    ensures !MarkedAt(Fire(net, m, t), maxtrap)
  {
    var m' := Fire(net, m, t);
    forall q | q in maxtrap && q < |m'| ensures m'[q] == 0 {
      assert q !in before by { assert forall i :: 0 <= i < |before| ==> before[i] == order[i]; }
      assert q !in net.post[t];
      assert m[q] == 0;
    }
  }

  lemma AllocatedEffect(net: Net, siphon: set<nat>, order: seq<nat>, m: seq<nat>, t: nat, r: nat, i: nat)
    requires WellFormedNet(net) && |m| == net.places
    requires r < |order| && i < |order| && Distinct(order) && order[i] in siphon
    requires t < |net.pre| && t < |net.post| && Enabled(net, m, t)
    requires AllocatedAt(net, siphon, t, order[r], order[..r])
    ensures Tokens(Fire(net, m, t), order[i]) <=
            Tokens(m, order[i]) + (if i < r then LargestOutput(net, |net.post|) else 0)
    ensures i == r ==> Tokens(Fire(net, m, t), order[i]) + 1 <= Tokens(m, order[i])
  {
    hide LargestOutput;
    var m' := Fire(net, m, t);
    var q := order[i];
    if i >= r {
      assert q !in order[..r];
      assert q !in net.post[t];
    }
    if q < |m| {
      assert m'[q] == m[q] - Weight(net.pre[t], q) + Weight(net.post[t], q);
    }
  }

  // ---------- dead siphons ----------

  /** Every transition of the siphon's postset lacks tokens on a place of the siphon. */
  ghost predicate SiphonBlocks(net: Net, siphon: set<nat>, m: seq<nat>) {
    forall t: nat :: t < |net.pre| && Meets(net.pre[t], siphon) ==> LacksIn(net, siphon, m, t)
  }

  ghost predicate LacksIn(net: Net, siphon: set<nat>, m: seq<nat>, t: nat)
    requires t < |net.pre|
  {
    exists p :: p in net.pre[t] && p in siphon && Tokens(m, p) < net.pre[t][p]
  }

  lemma LacksNotEnabled(net: Net, siphon: set<nat>, m: seq<nat>, t: nat)
    requires t < |net.pre| && LacksIn(net, siphon, m, t)
    ensures !Enabled(net, m, t)
  {
  }

  /** No firing changes the tokens on a siphon that blocks its whole postset. */
  lemma BlockedStep(net: Net, siphon: set<nat>, m: seq<nat>, t: nat)
    requires WellFormedNet(net) && Siphon(net, siphon) && SiphonBlocks(net, siphon, m) && Enabled(net, m, t)
    ensures SiphonBlocks(net, siphon, Fire(net, m, t))
  {
    var m' := Fire(net, m, t);
    assert !Meets(net.pre[t], siphon) by {
      if Meets(net.pre[t], siphon) { LacksNotEnabled(net, siphon, m, t); }
    }
    assert !Meets(net.post[t], siphon);
    forall p | p in siphon ensures Tokens(m', p) == Tokens(m, p) {
      assert p !in net.pre[t] && p !in net.post[t];
    }
    forall u: nat | u < |net.pre| && Meets(net.pre[u], siphon) ensures LacksIn(net, siphon, m', u) {
      assert LacksIn(net, siphon, m, u);
      var p :| p in net.pre[u] && p in siphon && Tokens(m, p) < net.pre[u][p];
      assert Tokens(m', p) < net.pre[u][p];
    }
  }

  /** From then on no transition of the siphon's postset is ever enabled again. */
  lemma DeadSiphonForever(net: Net, siphon: set<nat>, m: seq<nat>, run: seq<nat>, m': seq<nat>, t: nat)
    requires WellFormedNet(net) && Siphon(net, siphon) && SiphonBlocks(net, siphon, m)
    requires Runs(net, m, run, m') && t < |net.pre| && Meets(net.pre[t], siphon)
    ensures !Enabled(net, m', t)
  {
    hide Siphon, LacksIn, Enabled, Meets;
    var ms :| Trace(net, ms, run) && ms[0] == m && ms[|run|] == m';
    var i := 0;
    while i < |run|
      invariant 0 <= i <= |run| && SiphonBlocks(net, siphon, ms[i])
    {
      assert Step(net, ms[i], run[i], ms[i + 1]);
      BlockedStep(net, siphon, ms[i], run[i]);
      i := i + 1;
    }
    LacksNotEnabled(net, siphon, m', t);
  }
}
