/** Counting active triples and active places, and counting labels. */
module ActivePlaces {
  import opened NonInterference
  import opened PetriNets
  import opened Sets
  import opened Gadgets

  // ---------- active triples at one place ----------

  /** The active triples at place s, as pairs of a high and a low transition. */
  ghost function ActivePairs(net: Net, conf: seq<Confidence>, kind: Kind, s: nat, prop: Property,
                             downs: set<nat>): set<(nat, nat)>
    requires WellFormedNet(net) && |conf| == |net.pre|
  {
    set h: nat, l: nat | h < |conf| && l < |conf| && ActiveAt(net, conf, kind, Triple(s, h, l), prop, downs) :: (h, l)
  }

  /** Those with a smaller high transition than h, or with h itself and a smaller low one than l. */
  ghost function PairsBefore(net: Net, conf: seq<Confidence>, kind: Kind, s: nat, prop: Property, downs: set<nat>,
                             h: nat, l: nat): set<(nat, nat)>
    requires WellFormedNet(net) && |conf| == |net.pre|
  {
    set x | x in ActivePairs(net, conf, kind, s, prop, downs) && (x.0 < h || (x.0 == h && x.1 < l))
  }

  lemma PairsStart(net: Net, conf: seq<Confidence>, kind: Kind, s: nat, prop: Property, downs: set<nat>)
    requires WellFormedNet(net) && |conf| == |net.pre|
    ensures PairsBefore(net, conf, kind, s, prop, downs, 0, 0) == {}
    ensures PairsBefore(net, conf, kind, s, prop, downs, |conf|, 0) == ActivePairs(net, conf, kind, s, prop, downs)
  {
    hide ActiveAt;
  }

  lemma PairIsActive(net: Net, conf: seq<Confidence>, kind: Kind, s: nat, prop: Property, downs: set<nat>, h: nat,
                     l: nat)
    requires WellFormedNet(net) && |conf| == |net.pre| && h < |conf| && l < |conf|
    ensures (h, l) in ActivePairs(net, conf, kind, s, prop, downs) <==>
            ActiveAt(net, conf, kind, Triple(s, h, l), prop, downs)
  {
    hide ActiveAt;
  }

  lemma PairsNextLow(net: Net, conf: seq<Confidence>, kind: Kind, s: nat, prop: Property, downs: set<nat>, h: nat,
                     l: nat)
    requires WellFormedNet(net) && |conf| == |net.pre| && h < |conf| && l < |conf|
    ensures var before := PairsBefore(net, conf, kind, s, prop, downs, h, l);
            var after := PairsBefore(net, conf, kind, s, prop, downs, h, l + 1);
            |after| == |before| + One(ActiveAt(net, conf, kind, Triple(s, h, l), prop, downs))
  {
    hide ActiveAt, ActivePairs, WellFormedNet;
    var before := PairsBefore(net, conf, kind, s, prop, downs, h, l);
    var after := PairsBefore(net, conf, kind, s, prop, downs, h, l + 1);
    PairIsActive(net, conf, kind, s, prop, downs, h, l);
    forall x ensures x in after <==> x in before || (x == (h, l) && x in ActivePairs(net, conf, kind, s, prop, downs)) {
      assert x == (x.0, x.1);
    }
    assert after == before + if (h, l) in ActivePairs(net, conf, kind, s, prop, downs) then {(h, l)} else {};
  }

  lemma PairsNextHigh(net: Net, conf: seq<Confidence>, kind: Kind, s: nat, prop: Property, downs: set<nat>, h: nat)
    requires WellFormedNet(net) && |conf| == |net.pre| && h < |conf|
    ensures PairsBefore(net, conf, kind, s, prop, downs, h, |conf|) ==
            PairsBefore(net, conf, kind, s, prop, downs, h + 1, 0)
  {
    hide ActiveAt;
  }

  /** A transition that is no high candidate contributes no triple. */
  lemma PairsSkipHigh(net: Net, conf: seq<Confidence>, kind: Kind, s: nat, prop: Property, downs: set<nat>, h: nat)
    requires WellFormedNet(net) && |conf| == |net.pre| && h < |conf|
    requires forall l: nat :: !ActiveAt(net, conf, kind, Triple(s, h, l), prop, downs)
    ensures PairsBefore(net, conf, kind, s, prop, downs, h, 0) == PairsBefore(net, conf, kind, s, prop, downs, h + 1, 0)
  {
    hide ActiveAt;
  }

  lemma PairsGrow(net: Net, conf: seq<Confidence>, kind: Kind, s: nat, prop: Property, downs: set<nat>, h: nat, l: nat)
    requires WellFormedNet(net) && |conf| == |net.pre| && PairsBefore(net, conf, kind, s, prop, downs, h, l) != {}
    ensures ActivePairs(net, conf, kind, s, prop, downs) != {}
  {
    hide ActivePairs;
    var x :| x in PairsBefore(net, conf, kind, s, prop, downs, h, l);
    assert x in ActivePairs(net, conf, kind, s, prop, downs);
  }

  // ---------- active places ----------

  /** The places with an active triple, counted once for each kind. */
  ghost function ActivePlaceSet(net: Net, conf: seq<Confidence>, prop: Property, downs: set<nat>,
                                k: nat): set<(nat, Kind)>
    requires WellFormedNet(net) && |conf| == |net.pre|
  {
    set s: nat, kind: Kind | s < k && ActivePairs(net, conf, kind, s, prop, downs) != {} :: (s, kind)
  }

  lemma InPlaceSet(net: Net, conf: seq<Confidence>, prop: Property, downs: set<nat>, k: nat, s: nat, kind: Kind)
    requires WellFormedNet(net) && |conf| == |net.pre|
    ensures (s, kind) in ActivePlaceSet(net, conf, prop, downs, k) <==>
            s < k && ActivePairs(net, conf, kind, s, prop, downs) != {}
  {
    hide ActivePairs;
  }

  lemma PlacesNext(net: Net, conf: seq<Confidence>, prop: Property, downs: set<nat>, k: nat)
    requires WellFormedNet(net) && |conf| == |net.pre|
    ensures |ActivePlaceSet(net, conf, prop, downs, k + 1)| == |ActivePlaceSet(net, conf, prop, downs, k)|
              + One(ActivePairs(net, conf, Causal, k, prop, downs) != {})
                + One(ActivePairs(net, conf, Conflict, k, prop, downs) != {})
  {
    hide ActivePairs, WellFormedNet, ActivePlaceSet;
    var before, after := ActivePlaceSet(net, conf, prop, downs, k), ActivePlaceSet(net, conf, prop, downs, k + 1);
    InPlaceSet(net, conf, prop, downs, k, k, Causal);
    InPlaceSet(net, conf, prop, downs, k, k, Conflict);
    var a, b := ActivePairs(net, conf, Causal, k, prop, downs) != {},
      ActivePairs(net, conf, Conflict, k, prop, downs) != {};
    forall x ensures x in after <==> x in WithBoth(before, k, a, b) {
      assert x == (x.0, x.1) && (x.1 == Causal || x.1 == Conflict);
      InPlaceSet(net, conf, prop, downs, k, x.0, x.1);
      InPlaceSet(net, conf, prop, downs, k + 1, x.0, x.1);
    }
    assert after == WithBoth(before, k, a, b);
    WithBothSize(before, k, a, b);
  }

  ghost function WithBoth(S: set<(nat, Kind)>, k: nat, a: bool, b: bool): set<(nat, Kind)> {
    S + (if a then {(k, Causal)} else {}) + if b then {(k, Conflict)} else {}
  }

  lemma WithBothSize(S: set<(nat, Kind)>, k: nat, a: bool, b: bool)
    requires (k, Causal) !in S && (k, Conflict) !in S
    ensures |WithBoth(S, k, a, b)| == |S| + One(a) + One(b)
  {
  }

  lemma PlaceIsActive(net: Net, conf: seq<Confidence>, prop: Property, downs: set<nat>, kind: Kind, s: nat, k: nat)
    requires WellFormedNet(net) && |conf| == |net.pre| && s < k && ActivePairs(net, conf, kind, s, prop, downs) != {}
    ensures ActivePlaceSet(net, conf, prop, downs, k) != {}
  {
    hide ActivePairs;
    assert (s, kind) in ActivePlaceSet(net, conf, prop, downs, k);
  }

  /** There is no active place exactly if the labelling is secure. */
  lemma NoActivePlaceIsSecure(net: Net, conf: seq<Confidence>, prop: Property, downs: set<nat>)
    requires WellFormedNet(net) && |conf| == |net.pre|
    ensures ActivePlaceSet(net, conf, prop, downs, net.places) == {} <==> Secure(net, conf, prop, downs)
  {
    hide Active;
    if !Secure(net, conf, prop, downs) {
      var kind, tr :| ActiveAt(net, conf, kind, tr, prop, downs);
      assert tr == Triple(tr.place, tr.high, tr.low);
      assert (tr.high, tr.low) in ActivePairs(net, conf, kind, tr.place, prop, downs);
      PlaceIsActive(net, conf, prop, downs, kind, tr.place, net.places);
    }
    if x :| x in ActivePlaceSet(net, conf, prop, downs, net.places) {
      var pair :| pair in ActivePairs(net, conf, x.1, x.0, prop, downs);
      assert ActiveAt(net, conf, x.1, Triple(x.0, pair.0, pair.1), prop, downs);
    }
  }

  /** With one label for all transitions there is nothing to check. */
  lemma UniformIsSecure(net: Net, conf: seq<Confidence>, prop: Property, downs: set<nat>)
    requires WellFormedNet(net) && |conf| == |net.pre|
    requires |Labelled(conf, High)| == |conf| || |Labelled(conf, Low)| == |conf|
    ensures Secure(net, conf, prop, downs)
  {
    hide Active;
    if |Labelled(conf, High)| == |conf| { AllLabelled(conf, High); } else { AllLabelled(conf, Low); }
  }

  // ---------- labels ----------

  ghost function Labelled(conf: seq<Confidence>, c: Confidence): set<nat> {
    set t: nat | t < |conf| && conf[t] == c
  }

  lemma AllLabelled(conf: seq<Confidence>, c: Confidence)
    requires |Labelled(conf, c)| == |conf|
    ensures forall t :: 0 <= t < |conf| ==> conf[t] == c
  {
    forall t | 0 <= t < |conf| ensures conf[t] == c {
      if conf[t] != c {
        SizeBound(Labelled(conf, c) + {t}, |conf|);
      }
    }
  }

  lemma LabelledAll(conf: seq<Confidence>, c: Confidence)
    requires forall t :: 0 <= t < |conf| ==> conf[t] == c
    ensures |Labelled(conf, c)| == |conf|
  {
    assert Labelled(conf, c) == Range(0, |conf|);
    RangeSize(0, |conf|);
  }

  lemma LabelledMore(conf: seq<Confidence>, k: nat, c: Confidence)
    requires k < |conf|
    ensures Labelled(conf[..k + 1], c) == Labelled(conf[..k], c) + if conf[k] == c then {k} else {}
    ensures |Labelled(conf[..k + 1], c)| == |Labelled(conf[..k], c)| + One(conf[k] == c)
  {
    assert Labelled(conf[..k + 1], c) == Labelled(conf[..k], c) + if conf[k] == c then {k} else {};
  }

  lemma LabelledNone(conf: seq<Confidence>, c: Confidence)
    ensures Labelled(conf[..0], c) == {} && Labelled(conf[..|conf|], c) == Labelled(conf, c)
  {
    assert conf[..|conf|] == conf;
  }

  function Alone(b: bool, t: nat): set<nat> {
    if b then {t} else {}
  }

  /** Changing the label of one transition. */
  lemma Relabelled(conf: seq<Confidence>, t: nat, c: Confidence, d: Confidence)
    requires t < |conf| && conf[t] != c
    ensures Labelled(conf[t := c], d) == Labelled(conf, d) - Alone(conf[t] == d, t) + Alone(c == d, t)
    ensures |Labelled(conf[t := c], d)| + One(conf[t] == d) == |Labelled(conf, d)| + One(c == d)
    ensures conf[t] == d ==> |Labelled(conf, d)| > 0
  {
    var before, after := Labelled(conf, d), Labelled(conf[t := c], d);
    assert t in before <==> conf[t] == d;
    assert forall u: nat :: u in after <==> if u == t then d == c else u in before;
    hide Labelled;
    MoveOne(before, after, t, conf[t] == d, c == d);
  }

  lemma MoveOne(before: set<nat>, after: set<nat>, t: nat, was: bool, becomes: bool)
    requires (t in before <==> was) && forall u: nat :: u in after <==> if u == t then becomes else u in before
    requires !(was && becomes)
    ensures after == before - Alone(was, t) + Alone(becomes, t)
    ensures |after| + One(was) == |before| + One(becomes) && (was ==> |before| > 0)
  {
    assert after == before - Alone(was, t) + Alone(becomes, t);
    if !was && !becomes { assert after == before; }
    if becomes { assert after == before + {t}; }
  }

  /** The accounts that the analysis keeps of the labels. */
  datatype Tally = Tally(high: nat, low: nat, down: set<nat>, unassigned: set<nat>)

  ghost function TallyOf(conf: seq<Confidence>): Tally {
    Tally(|Labelled(conf, High)|, |Labelled(conf, Low)|, Labelled(conf, Down), Labelled(conf, Unassigned))
  }

  ghost function Entered(y: Tally, t: nat, c: Confidence): Tally {
    Tally(y.high + One(c == High), y.low + One(c == Low), y.down + Alone(c == Down, t),
          y.unassigned + Alone(c == Unassigned, t))
  }

  ghost predicate CanLeave(y: Tally, c: Confidence) {
    (c == High ==> y.high > 0) && (c == Low ==> y.low > 0)
  }

  ghost function Left(y: Tally, t: nat, c: Confidence): Tally
    requires CanLeave(y, c)
  {
    Tally(y.high - One(c == High), y.low - One(c == Low), y.down - Alone(c == Down, t),
          y.unassigned - Alone(c == Unassigned, t))
  }

  lemma TallyNone(conf: seq<Confidence>)
    ensures TallyOf(conf[..0]) == Tally(0, 0, {}, {}) && conf[..|conf|] == conf
  {
    LabelledNone(conf, High);
    LabelledNone(conf, Low);
    LabelledNone(conf, Down);
    LabelledNone(conf, Unassigned);
  }

  lemma TallyMore(conf: seq<Confidence>, t: nat)
    requires t < |conf|
    ensures TallyOf(conf[..t + 1]) == Entered(TallyOf(conf[..t]), t, conf[t])
  {
    hide Labelled;
    LabelledMore(conf, t, High);
    LabelledMore(conf, t, Low);
    LabelledMore(conf, t, Down);
    LabelledMore(conf, t, Unassigned);
  }

  lemma CountRelabelled(conf: seq<Confidence>, t: nat, c: Confidence, d: Confidence)
    requires t < |conf| && conf[t] != c
    ensures conf[t] == d ==> |Labelled(conf, d)| > 0
    ensures |Labelled(conf[t := c], d)| == |Labelled(conf, d)| - One(conf[t] == d) + One(c == d)
  {
    hide Labelled;
    Relabelled(conf, t, c, d);
  }

  lemma SetRelabelled(conf: seq<Confidence>, t: nat, c: Confidence, d: Confidence)
    requires t < |conf| && conf[t] != c
    ensures Labelled(conf[t := c], d) == Labelled(conf, d) - Alone(conf[t] == d, t) + Alone(c == d, t)
  {
    hide Labelled, Alone, One;
    Relabelled(conf, t, c, d);
  }

  lemma TallyRelabelled(conf: seq<Confidence>, t: nat, c: Confidence)
    requires t < |conf| && conf[t] != c
    ensures CanLeave(TallyOf(conf), conf[t])
    ensures Entered(Left(TallyOf(conf), t, conf[t]), t, c) == TallyOf(conf[t := c])
  {
    hide Labelled, Alone, One;
    CountRelabelled(conf, t, c, High);
    CountRelabelled(conf, t, c, Low);
    SetRelabelled(conf, t, c, Down);
    SetRelabelled(conf, t, c, Unassigned);
  }
}
