/** The non-interference analysis. */
module Anica {
  import opened ActivePlaces
  import opened Gadgets
  import opened NonInterference
  import opened PetriNets
  import opened TaskNets

  datatype Error = ToolError | UserError | InputError

  datatype Result<T> = Ok(value: T) | Err(error: Error)

  /** The exit code of the model checker, asked whether the place can hold one token. */
  type Lola = (Net, nat) -> int

  /** 0 and 1 are correct answers; any other code reports a failure. */
  ghost predicate Honest(lola: Lola) {
    forall net: Net, goal: nat :: WellFormedNet(net) ==>
      (lola(net, goal) == 0 ==> CanMark(net, goal)) && (lola(net, goal) == 1 ==> !CanMark(net, goal))
  }

  ghost predicate NeverFails(lola: Lola) {
    forall net: Net, goal: nat :: WellFormedNet(net) ==> lola(net, goal) == 0 || lola(net, goal) == 1
  }

  /** A binary decision diagram, as the choices that satisfy it. */
  type Bdd = Choice -> bool

  class AnicaLib {
    const net: Net
    const lola: Lola
    var lolaPath: string
    var oneTripleOnly: bool
    var oneActiveOnly: bool
    var propertyToCheck: Property
    var conf: seq<Confidence>
    var highLabeledTransitionsCount: nat
    var lowLabeledTransitionsCount: nat
    var downgradeTransitions: set<nat>
    var unassignedTransitions: set<nat>
    var newArcs: set<Arc>

    /** The counters and sets agree with the labels. */
    ghost predicate Valid()
      reads this`conf, this`highLabeledTransitionsCount, this`lowLabeledTransitionsCount, this`downgradeTransitions
      reads this`unassignedTransitions
    {
      WellFormedNet(net) && |conf| == |net.pre| && Accounts() == TallyOf(conf)
    }

    ghost function Accounts(): Tally
      reads this`highLabeledTransitionsCount, this`lowLabeledTransitionsCount, this`downgradeTransitions
      reads this`unassignedTransitions
    {
      Tally(highLabeledTransitionsCount, lowLabeledTransitionsCount, downgradeTransitions, unassignedTransitions)
    }

    // ---------- labels ----------

    /** Counts the labels of the net. */
    constructor (net: Net, lola: Lola, conf: seq<Confidence>)
      requires WellFormedNet(net) && |conf| == |net.pre|
      ensures Valid() && this.net == net && this.lola == lola && this.conf == conf
      ensures lolaPath == "" && oneTripleOnly && oneActiveOnly && propertyToCheck == PbniPlus && newArcs == {}
    {
      this.net, this.lola, this.conf := net, lola, conf;
      lolaPath, oneTripleOnly, oneActiveOnly, propertyToCheck := "", true, true, PbniPlus;
      highLabeledTransitionsCount, lowLabeledTransitionsCount := 0, 0;
      downgradeTransitions, unassignedTransitions, newArcs := {}, {}, {};
      new;
      hide TallyOf, Entered, WellFormedNet;
      TallyNone(conf);
      for t := 0 to |conf|
        modifies this`highLabeledTransitionsCount, this`lowLabeledTransitionsCount, this`downgradeTransitions
        modifies this`unassignedTransitions
        invariant Accounts() == TallyOf(conf[..t])
      {
        TallyMore(conf, t);
        Enter(t, conf[t]);
      }
    }

    /** Counts t under its new label. */
    method Enter(t: nat, c: Confidence)
      modifies this`highLabeledTransitionsCount, this`lowLabeledTransitionsCount, this`downgradeTransitions
      modifies this`unassignedTransitions
      ensures Accounts() == Entered(old(Accounts()), t, c)
    {
      match c {
        case Unassigned => unassignedTransitions := unassignedTransitions + {t};
        case Low => lowLabeledTransitionsCount := lowLabeledTransitionsCount + 1;
        case High => highLabeledTransitionsCount := highLabeledTransitionsCount + 1;
        case Down => downgradeTransitions := downgradeTransitions + {t};
      }
    }

    /** No longer counts t under its old label. */
    method Leave(t: nat, c: Confidence)
      requires CanLeave(Accounts(), c)
      modifies this`highLabeledTransitionsCount, this`lowLabeledTransitionsCount, this`downgradeTransitions
      modifies this`unassignedTransitions
      ensures Accounts() == Left(old(Accounts()), t, c)
    {
      match c {
        case Unassigned => unassignedTransitions := unassignedTransitions - {t};
        case Low => lowLabeledTransitionsCount := lowLabeledTransitionsCount - 1;
        case High => highLabeledTransitionsCount := highLabeledTransitionsCount - 1;
        case Down => downgradeTransitions := downgradeTransitions - {t};
      }
    }

    /** Changes the label of one transition. */
    method SetTransitionAssignment(t: nat, c: Confidence)
      requires Valid() && t < |conf|
      modifies this`conf, this`highLabeledTransitionsCount, this`lowLabeledTransitionsCount, this`downgradeTransitions
      modifies this`unassignedTransitions
      ensures Valid() && conf == old(conf)[t := c]
    {
      hide TallyOf, Entered, Left, CanLeave, WellFormedNet;
      if conf[t] == c {
        return;
      }
      TallyRelabelled(conf, t, c);
      Leave(t, conf[t]);
      conf := conf[t := c];
      Enter(t, c);
    }

    /** Labels one transition; unknown transitions and downgrading under PBNI+ are refused. */
    method AssignTransition(t: nat, c: Confidence) returns (error: Result<()>)
      requires Valid()
      modifies this`conf, this`highLabeledTransitionsCount, this`lowLabeledTransitionsCount, this`downgradeTransitions
      modifies this`unassignedTransitions
      ensures Valid()
      ensures t >= |old(conf)| ==> error == Err(InputError) && conf == old(conf)
      ensures t < |old(conf)| && c == Down && propertyToCheck == PbniPlus ==>
              error == Err(UserError) && conf == old(conf)
      ensures t < |old(conf)| && !(c == Down && propertyToCheck == PbniPlus) ==>
              error == Ok(()) && conf == old(conf)[t := c]
    {
      hide Valid;
      if t >= |conf| {
        return Err(InputError);
      }
      if c == Down && propertyToCheck == PbniPlus {
        return Err(UserError);
      }
      SetTransitionAssignment(t, c);
      return Ok(());
    }

    /** Labels all the transitions that have no label yet. */
    method AssignUnassignedTransitions(c: Confidence) returns (error: Result<()>)
      requires Valid()
      modifies this`conf, this`highLabeledTransitionsCount, this`lowLabeledTransitionsCount, this`downgradeTransitions
      modifies this`unassignedTransitions
      ensures Valid() && |conf| == |old(conf)|
      ensures c == Down && propertyToCheck == PbniPlus ==> error == Err(UserError) && conf == old(conf)
      ensures !(c == Down && propertyToCheck == PbniPlus) ==>
                && error == Ok(())
                && forall t :: 0 <= t < |conf| ==> conf[t] == if old(conf)[t] == Unassigned then c else old(conf)[t]
    {
      hide Valid;
      if c == Down && propertyToCheck == PbniPlus {
        return Err(UserError);
      }
      ghost var before := conf;
      for t := 0 to |conf|
        invariant Valid() && |conf| == |before|
        invariant forall u :: 0 <= u < t ==> conf[u] == if before[u] == Unassigned then c else before[u]
        invariant forall u :: t <= u < |conf| ==> conf[u] == before[u]
      {
        if conf[t] == Unassigned {
          SetTransitionAssignment(t, c);
        }
      }
      return Ok(());
    }

    // ---------- the patterns ----------

    method CollectTakes(arcs: map<nat, nat>, t: nat)
      requires Inside(arcs, net.places)
      modifies this`newArcs
      ensures newArcs == old(newArcs) + TakeArcs(arcs, t)
    {
      for p := 0 to net.places
        invariant newArcs == old(newArcs) + set q | q in arcs && q < p :: Take(q, t)
      {
        if p in arcs {
          newArcs := newArcs + {Take(p, t)};
        }
      }
    }

    method CollectPuts(arcs: map<nat, nat>, t: nat)
      requires Inside(arcs, net.places)
      modifies this`newArcs
      ensures newArcs == old(newArcs) + PutArcs(arcs, t)
    {
      for p := 0 to net.places
        invariant newArcs == old(newArcs) + set q | q in arcs && q < p :: Put(t, q)
      {
        if p in arcs {
          newArcs := newArcs + {Put(t, p)};
        }
      }
    }

    /** One marked place in a self-loop on t, which hC empties. */
    method AddGuard(x: TaskNet, t: nat, hC: nat)
      requires WellFormedNet(x.net)
      modifies x, this`newArcs
      ensures x.net == WithPlace(old(x.net), 1) && WellFormedNet(x.net)
      ensures newArcs == old(newArcs) + OneGuard(old(x.net.places), t, hC)
    {
      var a := x.CreatePlace(1);
      newArcs := newArcs + {Put(t, a)};
      newArcs := newArcs + {Take(a, t)};
      newArcs := newArcs + {Take(a, hC)};
    }

    /** Guards every other transition that puts tokens on the place of the triple. */
    method AddRivals(x: TaskNet, tr: Triple, hC: nat) returns (ghost ts: seq<nat>)
      requires WellFormedNet(x.net)
      modifies x, this`newArcs
      ensures WellFormedNet(x.net) && x.net == MorePlaces(old(x.net), |ts|)
      ensures newArcs == old(newArcs) + GuardArcs(old(x.net.places), ts, hC)
      ensures forall t: nat :: t in ts <==> t < |old(x.net).post| && Rival(old(x.net), tr, t)
    {
      hide WellFormedNet, WithPlace, MorePlaces, OneGuard;
      ghost var before := x.net;
      ts := [];
      NoMorePlace(x.net);
      SameTransitions(before, 0);
      for t := 0 to |x.net.post|
        invariant WellFormedNet(x.net) && x.net == MorePlaces(before, |ts|) && x.net.post == before.post
        invariant x.net.places == before.places + |ts|
        invariant newArcs == old(newArcs) + GuardArcs(before.places, ts, hC)
        invariant forall u: nat :: u in ts <==> u < t && Rival(before, tr, u)
      {
        if tr.place in x.net.post[t] && t != tr.low && t != tr.high {
          AddGuard(x, t, hC);
          OneMorePlace(before, |ts|);
          SameTransitions(before, |ts| + 1);
          assert (ts + [t])[..|ts|] == ts;
          ts := ts + [t];
        }
      }
    }

    /** Guards the downgrade transitions. */
    method AddDowngrades(x: TaskNet, hC: nat) returns (ghost ts: seq<nat>)
      requires WellFormedNet(x.net)
      modifies x, this`newArcs
      ensures WellFormedNet(x.net) && x.net == MorePlaces(old(x.net), |ts|)
      ensures newArcs == old(newArcs) + GuardArcs(old(x.net.places), ts, hC)
      ensures forall t: nat :: t in ts <==> t < |conf| && t in downgradeTransitions
    {
      hide WellFormedNet, WithPlace, MorePlaces, OneGuard;
      ghost var before := x.net;
      ts := [];
      NoMorePlace(x.net);
      for t := 0 to |conf|
        invariant WellFormedNet(x.net) && x.net == MorePlaces(before, |ts|) && x.net.places == before.places + |ts|
        invariant newArcs == old(newArcs) + GuardArcs(before.places, ts, hC)
        invariant forall u: nat :: u in ts <==> u < t && u in downgradeTransitions
      {
        if t in downgradeTransitions {
          AddGuard(x, t, hC);
          OneMorePlace(before, |ts|);
          SameTransitions(before, |ts| + 1);
          assert (ts + [t])[..|ts|] == ts;
          ts := ts + [t];
        }
      }
    }

    /** Guards whatever must not fire between the high and the low transition. */
    method AddGuards(x: TaskNet, tr: Triple, hC: nat) returns (ghost r: seq<nat>, ghost d: seq<nat>)
      requires |net.pre| == |net.post| == |conf| && (forall t :: t in downgradeTransitions ==> t < |conf|)
      requires WellFormedNet(x.net) && x.net.post == net.post + [map[], map[]]
      modifies x, this`newArcs
      ensures WellFormedNet(x.net) && x.net == MorePlaces(old(x.net), |r| + |d|)
      ensures newArcs == old(newArcs) + GuardArcs(old(x.net.places), r, hC) + GuardArcs(old(x.net.places) + |r|, d, hC)
      ensures forall t: nat :: t in r + d <==> t in Guarded(net, Causal, tr, propertyToCheck, downgradeTransitions)
      ensures forall i :: 0 <= i < |r + d| ==> (r + d)[i] < |net.pre|
    {
      hide WellFormedNet, MorePlaces, GuardArcs;
      ghost var before := x.net;
      r := AddRivals(x, tr, hC);
      SameTransitions(before, |r|);
      d := [];
      if propertyToCheck == Pbnid {
        d := AddDowngrades(x, hC);
      } else {
        NoGuards(before.places + |r|, hC);
        NoMorePlace(x.net);
      }
      MorePlacesTwice(before, |r|, |d|);
      forall i | 0 <= i < |r + d| ensures (r + d)[i] < |net.pre| {
        assert (r + d)[i] in r || (r + d)[i] in d;
      }
    }

    /** Creates the collected arcs. */
    method InsertArcs(x: TaskNet, ghost takes: map<nat, nat>, ghost puts: map<nat, nat>, ghost lowPre: map<nat, nat>,
                      ghost fired: nat, ghost goal: nat, ghost guards: map<nat, nat>)
      requires WellFormedNet(net) && WellFormedNet(x.net) && NewPlaces(net, x.net, fired, goal, guards)
      requires x.net.pre == net.pre + [map[], map[]] && x.net.post == net.post + [map[], map[]]
      requires |net.pre| == |net.post| && Inside(takes, net.places) && Inside(puts, net.places)
      requires Inside(lowPre, net.places)
      requires forall a :: a in newArcs <==>
               GadgetArc(Flat(takes), Flat(puts), Flat(lowPre), |net.pre|, |net.pre| + 1, fired, goal, guards, a)
      modifies x, this`newArcs
      ensures newArcs == {} && Gadget(net, x.net, Flat(takes), Flat(puts), Flat(lowPre), fired, goal, guards)
    {
      hide WellFormedNet, NewPlaces, Inside, GadgetArc, Flat, Gadget, Inserted, ArcInside;
      ghost var grown := x.net;
      PatternAssembled(net, grown, newArcs, takes, puts, lowPre, fired, goal, guards);
      x.CreateArcs(newArcs);
      AssembledIsGadget(net, grown, x.net, newArcs, takes, puts, lowPre, fired, goal, guards);
      newArcs := {};
    }

    /** The arcs that hC and lC share with the high and the low transition. */
    method CollectCopies(tr: Triple, puts: map<nat, nat>, lC: nat, hC: nat)
      requires WellFormedNet(net) && InNet(net, tr) && Inside(puts, net.places) && newArcs == {}
      modifies this`newArcs
      ensures newArcs == TakeArcs(net.pre[tr.high], hC) + PutArcs(puts, hC) + TakeArcs(net.pre[tr.low], lC)
    {
      hide TakeArcs, PutArcs;
      CollectTakes(net.pre[tr.high], hC);
      CollectPuts(puts, hC);
      CollectTakes(net.pre[tr.low], lC);
    }

    /** The arcs through fired to goal. */
    method CollectFired(lC: nat, hC: nat, fired: nat, goal: nat)
      modifies this`newArcs
      ensures newArcs == old(newArcs) + {Put(hC, fired), Take(fired, lC), Put(lC, goal)}
    {
      newArcs := newArcs + {Put(hC, fired)};
      newArcs := newArcs + {Take(fired, lC)};
      newArcs := newArcs + {Put(lC, goal)};
    }

    /** The triple lies in the net, and the downgrade transitions are transitions. */
    ghost predicate Fits(tr: Triple)
      reads this`conf, this`downgradeTransitions
    {
      && WellFormedNet(net) && |net.pre| == |net.post| == |conf| && |net.m0| == net.places
      && InNet(net, tr) && tr.high < |net.pre| && tr.low < |net.pre|
      && (forall t :: t in downgradeTransitions ==> t < |conf|)
      && Inside(net.pre[tr.high], net.places) && Inside(net.post[tr.high], net.places)
        && Inside(net.pre[tr.low], net.places)
    }

    lemma TripleFits(tr: Triple)
      requires Valid() && InNet(net, tr)
      ensures Fits(tr)
    {
      InNetInside(net, tr, Causal);
    }

    /** Extends the net so that goal can be marked exactly if the causal triple is active. */
    method AddCausalPattern(x: TaskNet, tr: Triple) returns (goal: nat, ghost fired: nat, ghost guards: map<nat, nat>)
      requires Fits(tr) && x.net == net && newArcs == {}
      modifies x, this`newArcs
      ensures newArcs == {}
      ensures Gadget(net, x.net, Flat(net.pre[tr.high]), Flat(net.post[tr.high]), Flat(net.pre[tr.low]), fired, goal,
                     guards)
      ensures guards.Values == Guarded(net, Causal, tr, propertyToCheck, downgradeTransitions)
    {
      hide WellFormedNet, InNet, Inside, NewPlaces, GadgetArc, Flat, Gadget, Guarded, PatternArcs, CausalPlaces,
        MorePlaces;
      var lC, hC, f: nat;
      lC, hC, f, goal := CreateCausal(x);
      fired := f;
      ghost var r, d := CollectArcs(x, tr, net.post[tr.high], lC, hC, f, goal);
      guards := CausalGuards(net, x.net, newArcs, tr, r, d);
      InsertArcs(x, net.pre[tr.high], net.post[tr.high], net.pre[tr.low], fired, goal, guards);
    }

    /** Extends the net so that goal can be marked exactly if the conflict triple is active. */
    method AddConflictPattern(x: TaskNet, tr: Triple) returns (goal: nat, ghost fired: nat, ghost guards: map<nat, nat>)
      requires Fits(tr) && x.net == net && newArcs == {}
      modifies x, this`newArcs
      ensures newArcs == {}
      ensures Gadget(net, x.net, Flat(net.pre[tr.high]), Flat(net.pre[tr.high]), Flat(net.pre[tr.low]), fired, goal,
                     guards)
      ensures guards.Values == Guarded(net, Conflict, tr, propertyToCheck, downgradeTransitions)
    {
      hide WellFormedNet, InNet, Inside, NewPlaces, GadgetArc, Flat, Gadget, Guarded, PatternArcs, ConflictPlaces,
        MorePlaces;
      var lC, hC, f, enabled: nat;
      lC, hC, f, enabled, goal := CreateConflict(x);
      fired := f;
      ghost var r, d := CollectArcs(x, tr, net.pre[tr.high], lC, hC, f, goal);
      CollectEnabled(enabled, tr.high, hC);
      guards := ConflictPatternGuards(net, x.net, newArcs, tr, r, d);
      ConflictGuarded(net, tr, propertyToCheck, downgradeTransitions);
      InsertArcs(x, net.pre[tr.high], net.pre[tr.high], net.pre[tr.low], fired, goal, guards);
    }

    /** The arcs of the place enabled, which the high transition keeps and hC empties. */
    method CollectEnabled(enabled: nat, high: nat, hC: nat)
      modifies this`newArcs
      ensures newArcs == old(newArcs) + OneGuard(enabled, high, hC)
    {
      newArcs := newArcs + {Take(enabled, high)};
      newArcs := newArcs + {Put(high, enabled)};
      newArcs := newArcs + {Take(enabled, hC)};
    }

    method CreateConflict(x: TaskNet) returns (lC: nat, hC: nat, fired: nat, enabled: nat, goal: nat)
      requires WellFormedNet(net) && x.net == net
      modifies x
      ensures lC == |net.pre| && hC == lC + 1 && fired == net.places && enabled == fired + 1 && goal == fired + 2
      ensures WellFormedNet(x.net) && x.net == ConflictPlaces(net, 0)
      ensures x.net.places == net.places + 3 && x.net.post == net.post + [map[], map[]]
    {
      hide WellFormedNet;
      GrownNets(net, 0);
      lC := x.CreateTransition();
      hC := x.CreateTransition();
      fired := x.CreatePlace(0);
      enabled := x.CreatePlace(1);
      goal := x.CreatePlace(0);
      NoMorePlace(x.net);
    }

    /** All the arcs of the pattern, apart from those of the place enabled. */
    method CollectArcs(x: TaskNet, tr: Triple, puts: map<nat, nat>, lC: nat, hC: nat, fired: nat, goal: nat)
      returns (ghost r: seq<nat>, ghost d: seq<nat>)
      requires WellFormedNet(net) && InNet(net, tr) && Inside(puts, net.places) && newArcs == {}
      requires |net.pre| == |net.post| == |conf| && (forall t :: t in downgradeTransitions ==> t < |conf|)
      requires WellFormedNet(x.net) && x.net.post == net.post + [map[], map[]]
      modifies x, this`newArcs
      ensures WellFormedNet(x.net) && x.net == MorePlaces(old(x.net), |r| + |d|)
      ensures newArcs == PatternArcs(net.pre[tr.high], puts, net.pre[tr.low], lC, hC, fired, goal, old(x.net.places), r,
                                     d)
      ensures forall t: nat :: t in r + d <==> t in Guarded(net, Causal, tr, propertyToCheck, downgradeTransitions)
      ensures forall i :: 0 <= i < |r + d| ==> (r + d)[i] < |net.pre|
    {
      hide WellFormedNet, MorePlaces, GuardArcs, Guarded, TakeArcs, PutArcs, Inside;
      CollectCopies(tr, puts, lC, hC);
      r, d := AddGuards(x, tr, hC);
      CollectFired(lC, hC, fired, goal);
    }

    method CreateCausal(x: TaskNet) returns (lC: nat, hC: nat, fired: nat, goal: nat)
      requires WellFormedNet(net) && x.net == net
      modifies x
      ensures lC == |net.pre| && hC == lC + 1 && fired == net.places && goal == fired + 1
      ensures WellFormedNet(x.net) && x.net == CausalPlaces(net, 0)
      ensures x.net.places == net.places + 2 && x.net.post == net.post + [map[], map[]]
    {
      hide WellFormedNet;
      GrownNets(net, 0);
      lC := x.CreateTransition();
      hC := x.CreateTransition();
      fired := x.CreatePlace(0);
      goal := x.CreatePlace(0);
      NoMorePlace(x.net);
    }

    // ---------- checking triples and places ----------

    /** What the checks rely on: a model checker that does not lie. */
    ghost predicate Ready()
      reads this`conf, this`highLabeledTransitionsCount, this`lowLabeledTransitionsCount, this`downgradeTransitions
      reads this`unassignedTransitions
    {
      Valid() && Honest(lola)
    }

    /** The potential triples at place s have unit weights on the arcs that are copied. */
    ghost predicate Copyable(kind: Kind, s: nat)
      requires Valid()
      reads this`conf, this`highLabeledTransitionsCount, this`lowLabeledTransitionsCount, this`downgradeTransitions
      reads this`unassignedTransitions
    {
      forall h: nat, l: nat ::
        LabelledAt(net, conf, kind, Triple(s, h, l)) ==> UnitCopies(net, kind, Triple(s, h, l))
    }

    ghost predicate AllCopyable()
      requires Valid()
      reads this`conf, this`highLabeledTransitionsCount, this`lowLabeledTransitionsCount, this`downgradeTransitions
      reads this`unassignedTransitions
    {
      forall kind, s: nat :: s < net.places ==> Copyable(kind, s)
    }

    /** The same for the triples that the characterization looks at. */
    ghost predicate ExaminedCopyable()
      requires Valid()
      reads this`conf, this`highLabeledTransitionsCount, this`lowLabeledTransitionsCount, this`downgradeTransitions
      reads this`unassignedTransitions
    {
      forall kind, tr :: Examined(net, conf, kind, tr) ==> UnitCopies(net, kind, tr)
    }

    /** The exit code of the model checker, for the question whether goal can be marked. */
    method CallLola(x: Net, goal: nat) returns (r: Result<int>)
      ensures r == if lolaPath == "" then Err(ToolError) else Ok(lola(x, goal))
    {
      if lolaPath == "" {
        return Err(ToolError);
      }
      return Ok(lola(x, goal));
    }

    method IsActiveCausalTriple(tr: Triple) returns (r: Result<bool>)
      requires Ready() && UnitCopies(net, Causal, tr)
      modifies this`newArcs
      ensures r.Ok? ==> (r.value <==> Active(net, Causal, tr, propertyToCheck, downgradeTransitions))
      ensures lolaPath == "" ==> r == Err(ToolError)
      ensures r.Err? ==> r.error == ToolError && (lolaPath == "" || !NeverFails(lola))
    {
      TripleFits(tr);
      hide Active, Gadget, Guarded, WellFormedNet, Fits, Puts;
      var taskNet := new TaskNet(net);
      newArcs := {};
      var goal: nat;
      ghost var fired, guards;
      goal, fired, guards := AddCausalPattern(taskNet, tr);
      PutsOf(net, tr.high);
      PatternExact(net, Causal, tr, propertyToCheck, downgradeTransitions, taskNet.net, fired, goal, guards);
      r := Answer(taskNet.net, goal);
    }

    method IsActiveConflictTriple(tr: Triple) returns (r: Result<bool>)
      requires Ready() && UnitCopies(net, Conflict, tr)
      modifies this`newArcs
      ensures r.Ok? ==> (r.value <==> Active(net, Conflict, tr, propertyToCheck, downgradeTransitions))
      ensures lolaPath == "" ==> r == Err(ToolError)
      ensures r.Err? ==> r.error == ToolError && (lolaPath == "" || !NeverFails(lola))
    {
      TripleFits(tr);
      hide Active, Gadget, Guarded, WellFormedNet, Fits, Puts;
      var taskNet := new TaskNet(net);
      newArcs := {};
      var goal: nat;
      ghost var fired, guards;
      goal, fired, guards := AddConflictPattern(taskNet, tr);
      PutsOf(net, tr.high);
      PatternExact(net, Conflict, tr, propertyToCheck, downgradeTransitions, taskNet.net, fired, goal, guards);
      r := Answer(taskNet.net, goal);
    }

    /** Interprets the exit code. */
    method Answer(x: Net, goal: nat) returns (r: Result<bool>)
      requires WellFormedNet(x) && Honest(lola)
      ensures r.Ok? ==> (r.value <==> CanMark(x, goal))
      ensures lolaPath == "" ==> r == Err(ToolError)
      ensures r.Err? ==> r.error == ToolError && (lolaPath == "" || (lola(x, goal) != 0 && lola(x, goal) != 1))
      ensures r.Err? ==> lolaPath == "" || !NeverFails(lola)
    {
      hide CanMark, WellFormedNet;
      var code := CallLola(x, goal);
      if code.Err? {
        return Err(code.error);
      }
      match code.value {
        case 0 => return Ok(true);
        case 1 => return Ok(false);
        case _ => return Err(ToolError);
      }
    }

    method IsActiveTriple(kind: Kind, tr: Triple) returns (r: Result<bool>)
      requires Ready() && UnitCopies(net, kind, tr)
      modifies this`newArcs
      ensures r.Ok? ==> (r.value <==> Active(net, kind, tr, propertyToCheck, downgradeTransitions))
      ensures lolaPath == "" ==> r == Err(ToolError)
      ensures r.Err? ==> r.error == ToolError && (lolaPath == "" || !NeverFails(lola))
    {
      hide Active, Ready;
      match kind {
        case Causal => r := IsActiveCausalTriple(tr);
        case Conflict => r := IsActiveConflictTriple(tr);
      }
    }

    ghost function Here(kind: Kind, s: nat): set<(nat, nat)>
      requires Valid()
      reads this`conf, this`highLabeledTransitionsCount, this`lowLabeledTransitionsCount, this`downgradeTransitions
      reads this`unassignedTransitions, this`propertyToCheck
    {
      ActivePairs(net, conf, kind, s, propertyToCheck, downgradeTransitions)
    }

    ghost function Found(kind: Kind, s: nat, h: nat, l: nat): nat
      requires Valid()
      reads this`conf, this`highLabeledTransitionsCount, this`lowLabeledTransitionsCount, this`downgradeTransitions
      reads this`unassignedTransitions, this`propertyToCheck
    {
      |PairsBefore(net, conf, kind, s, propertyToCheck, downgradeTransitions, h, l)|
    }

    lemma FoundStart(kind: Kind, s: nat)
      requires Valid()
      ensures Found(kind, s, 0, 0) == 0 && Found(kind, s, |conf|, 0) == |Here(kind, s)|
    {
      PairsStart(net, conf, kind, s, propertyToCheck, downgradeTransitions);
    }

    lemma FoundSome(kind: Kind, s: nat, h: nat, l: nat)
      requires Valid() && Found(kind, s, h, l) > 0
      ensures Here(kind, s) != {}
    {
      PairsGrow(net, conf, kind, s, propertyToCheck, downgradeTransitions, h, l);
    }

    lemma FoundHigh(kind: Kind, s: nat, h: nat)
      requires Valid() && h < |conf|
      ensures Found(kind, s, h, |conf|) == Found(kind, s, h + 1, 0)
      ensures !(s in (if kind.Causal? then net.post[h] else net.pre[h]) && conf[h] == High) ==>
              Found(kind, s, h, 0) == Found(kind, s, h + 1, 0)
    {
      hide Active;
      PairsNextHigh(net, conf, kind, s, propertyToCheck, downgradeTransitions, h);
      if !(s in (if kind.Causal? then net.post[h] else net.pre[h]) && conf[h] == High) {
        PairsSkipHigh(net, conf, kind, s, propertyToCheck, downgradeTransitions, h);
      }
    }

    /** Counts the triple of h and l. */
    method CountTriple(kind: Kind, s: nat, h: nat, l: nat, ret: nat) returns (r: Result<nat>)
      requires Ready() && Copyable(kind, s) && s < net.places && h < |conf| && l < |conf| && ret == Found(kind, s, h, l)
      requires s in (if kind.Causal? then net.post[h] else net.pre[h]) && conf[h] == High
      modifies this`newArcs
      ensures r.Ok? ==> ret <= r.value == Found(kind, s, h, l + 1) <= ret + 1
      ensures r.Err? ==> r.error == ToolError && (lolaPath == "" || !NeverFails(lola))
    {
      hide Active, PairsBefore;
      PairsNextLow(net, conf, kind, s, propertyToCheck, downgradeTransitions, h, l);
      if s in net.pre[l] && conf[l] == Low {
        var b := IsActiveTriple(kind, Triple(s, h, l));
        if b.Err? {
          return Err(b.error);
        }
        if b.value {
          return Ok(ret + 1);
        }
      }
      return Ok(ret);
    }

    /** Counts the triples of the high transition h, or finds the first one. */
    method CountHigh(kind: Kind, s: nat, h: nat, ret: nat) returns (r: Result<nat>)
      requires Ready() && Valid() && Copyable(kind, s) && s < net.places && h < |conf| && ret == Found(kind, s, h, 0)
      requires (!oneTripleOnly ==> ret == 0)
      requires s in (if kind.Causal? then net.post[h] else net.pre[h]) && conf[h] == High
      modifies this`newArcs
      ensures r.Ok? && oneTripleOnly ==> r.value == Found(kind, s, h + 1, 0)
      ensures r.Ok? && !oneTripleOnly && r.value == 0 ==> Found(kind, s, h + 1, 0) == 0
      ensures r.Ok? && !oneTripleOnly && r.value > 0 ==> r.value == 1 && Here(kind, s) != {}
      ensures r.Err? ==> r.error == ToolError && (lolaPath == "" || !NeverFails(lola))
    {
      hide *;
      FoundHigh(kind, s, h);
      var n := ret;
      for l := 0 to |conf|
        invariant n == Found(kind, s, h, l) && (!oneTripleOnly ==> n == 0)
      {
        var next := CountTriple(kind, s, h, l, n);
        if next.Err? {
          return next;
        }
        n := next.value;
        if !oneTripleOnly && n > 0 {
          FoundSome(kind, s, h, l + 1);
          return Ok(n);
        }
      }
      return Ok(n);
    }

    /** The same for any transition: it may not be a high one next to the place. */
    method CountTransition(kind: Kind, s: nat, h: nat, ret: nat) returns (r: Result<nat>)
      requires Ready() && Valid() && Copyable(kind, s) && s < net.places && h < |conf| && ret == Found(kind, s, h, 0)
      requires (!oneTripleOnly ==> ret == 0)
      modifies this`newArcs
      ensures r.Ok? && oneTripleOnly ==> r.value == Found(kind, s, h + 1, 0)
      ensures r.Ok? && !oneTripleOnly && r.value == 0 ==> Found(kind, s, h + 1, 0) == 0
      ensures r.Ok? && !oneTripleOnly && r.value > 0 ==> r.value == 1 && Here(kind, s) != {}
      ensures r.Err? ==> r.error == ToolError && (lolaPath == "" || !NeverFails(lola))
    {
      assert |net.post| == |net.pre| == |conf|;
      hide *;
      FoundHigh(kind, s, h);
      if s in (if kind == Causal then net.post[h] else net.pre[h]) && conf[h] == High {
        r := CountHigh(kind, s, h, ret);
      } else {
        r := Ok(ret);
      }
    }

    /** The number of active triples at the place; with oneTripleOnly switched off the
        search ends at the first one. */
    method IsActivePlace(kind: Kind, s: nat) returns (r: Result<nat>)
      requires Ready() && Valid() && Copyable(kind, s) && s < net.places && unassignedTransitions == {}
      modifies this`newArcs
      ensures r.Ok? ==> r.value == if oneTripleOnly then |Here(kind, s)| else One(Here(kind, s) != {})
      ensures r.Err? ==> r.error == ToolError && (lolaPath == "" || !NeverFails(lola))
    {
      hide Here, Found, Ready, Valid;
      var ret := 0;
      FoundStart(kind, s);
      for h := 0 to |conf|
        invariant ret == Found(kind, s, h, 0) && (!oneTripleOnly ==> ret == 0)
      {
        var next := CountTransition(kind, s, h, ret);
        if next.Err? {
          return next;
        }
        ret := next.value;
        if !oneTripleOnly && ret > 0 {
          return Ok(ret);
        }
      }
      return Ok(ret);
    }

    // ---------- security ----------

    ghost function ActiveBelow(k: nat): set<(nat, Kind)>
      requires Valid()
      reads this`conf, this`highLabeledTransitionsCount, this`lowLabeledTransitionsCount, this`downgradeTransitions
      reads this`unassignedTransitions, this`propertyToCheck
    {
      ActivePlaceSet(net, conf, propertyToCheck, downgradeTransitions, k)
    }

    ghost function ActiveCount(k: nat): nat
      requires Valid()
      reads this`conf, this`highLabeledTransitionsCount, this`lowLabeledTransitionsCount, this`downgradeTransitions
      reads this`unassignedTransitions, this`propertyToCheck
    {
      |ActiveBelow(k)|
    }

    /** Some place is active. */
    ghost predicate AnyActive()
      requires Valid()
      reads this`conf, this`highLabeledTransitionsCount, this`lowLabeledTransitionsCount, this`downgradeTransitions
      reads this`unassignedTransitions, this`propertyToCheck
    {
      ActiveBelow(net.places) != {}
    }

    lemma ActiveMore(p: nat)
      requires Valid()
      ensures ActiveCount(p + 1) == ActiveCount(p) + One(Here(Causal, p) != {}) + One(Here(Conflict, p) != {})
    {
      PlacesNext(net, conf, propertyToCheck, downgradeTransitions, p);
    }

    lemma ActiveSome(kind: Kind, p: nat)
      requires Valid() && p < net.places && Here(kind, p) != {}
      ensures AnyActive()
    {
      PlaceIsActive(net, conf, propertyToCheck, downgradeTransitions, kind, p, net.places);
    }

    /** Checks one place for active triples of both kinds. */
    method CheckPlace(p: nat, ret: nat) returns (r: Result<nat>)
      requires Ready() && Valid() && AllCopyable() && p < net.places
      requires unassignedTransitions == {} && ret == ActiveCount(p) && (oneActiveOnly ==> ret == 0)
      modifies this`newArcs
      ensures r.Ok? && !oneActiveOnly ==> r.value == ActiveCount(p + 1)
      ensures r.Ok? && oneActiveOnly && r.value == 0 ==> ActiveCount(p + 1) == 0
      ensures r.Ok? && oneActiveOnly && r.value > 0 ==> r.value == 1 && AnyActive()
      ensures r.Err? ==> r.error == ToolError && (lolaPath == "" || !NeverFails(lola))
    {
      assert Copyable(Causal, p) && Copyable(Conflict, p);
      hide *;
      ActiveMore(p);
      var n := ret;
      var causal := IsActivePlace(Causal, p);
      if causal.Err? {
        return causal;
      }
      PositiveCount(Here(Causal, p), oneTripleOnly, causal.value);
      if causal.value > 0 {
        n := n + 1;
        if oneActiveOnly {
          ActiveSome(Causal, p);
          return Ok(n);
        }
      }
      var conflict := IsActivePlace(Conflict, p);
      if conflict.Err? {
        return conflict;
      }
      PositiveCount(Here(Conflict, p), oneTripleOnly, conflict.value);
      if conflict.value > 0 {
        n := n + 1;
        if oneActiveOnly {
          ActiveSome(Conflict, p);
          return Ok(n);
        }
      }
      return Ok(n);
    }

    /** 0 exactly if the labelling is secure; otherwise the number of active places, or
        1 if the search ends at the first one. */
    method IsSecure() returns (r: Result<nat>)
      requires Ready() && Valid() && AllCopyable()
      modifies this`newArcs
      ensures lolaPath == "" ==> r == Err(ToolError)
      ensures lolaPath != "" && (exists t :: 0 <= t < |conf| && conf[t] == Unassigned) ==> r == Err(UserError)
      ensures lolaPath != "" && propertyToCheck != Pbnid && (exists t :: 0 <= t < |conf| && conf[t] == Down) ==>
                r == Err(UserError)
      ensures lolaPath != "" && !Refused() && r.Err? ==> r.error == ToolError && !NeverFails(lola)
      ensures lolaPath != "" && !Refused() && Uniform() ==> r == Ok(0)
      ensures r.Ok? ==> r.value == if oneActiveOnly then One(AnyActive())
              else |ActiveBelow(net.places)|
      ensures r.Ok? ==> (r.value == 0 <==> Secure(net, conf, propertyToCheck, downgradeTransitions))
    {
      if lolaPath == "" {
        return Err(ToolError);
      }
      RefusedBySets();
      if unassignedTransitions != {} {
        return Err(UserError);
      }
      if propertyToCheck != Pbnid && downgradeTransitions != {} {
        return Err(UserError);
      }
      UniformCounts();
      hide Ready, Valid, Honest, NeverFails, AnyActive, ActiveCount, Secure, AllCopyable, Uniform;
      if highLabeledTransitionsCount == |net.pre| || lowLabeledTransitionsCount == |net.pre| {
        return Ok(0);
      }
      r := CheckPlaces();
    }

    /** Checks the places one by one. */
    method CheckPlaces() returns (r: Result<nat>)
      requires Ready() && Valid() && AllCopyable() && unassignedTransitions == {}
      modifies this`newArcs
      ensures r.Ok? ==> r.value == if oneActiveOnly then One(AnyActive())
              else ActiveCount(net.places)
      ensures r.Err? ==> r.error == ToolError && (lolaPath == "" || !NeverFails(lola))
    {
      hide *;
      NothingBelow();
      OneOf();
      var ret := 0;
      for p := 0 to net.places
        invariant ret == ActiveCount(p) && (oneActiveOnly ==> ret == 0)
      {
        var next := CheckPlace(p, ret);
        if next.Err? {
          return next;
        }
        ret := next.value;
        if oneActiveOnly && ret > 0 {
          return Ok(ret);
        }
      }
      return Ok(ret);
    }

    /** The analysis refuses unassigned transitions, and downgrade transitions under PBNI+. */
    ghost predicate Refused()
      reads this`conf, this`propertyToCheck
    {
      exists t :: 0 <= t < |conf| && (conf[t] == Unassigned || (conf[t] == Down && propertyToCheck != Pbnid))
    }

    lemma RefusedBySets()
      requires Valid()
      ensures unassignedTransitions != {} <==> exists t :: 0 <= t < |conf| && conf[t] == Unassigned
      ensures downgradeTransitions != {} <==> exists t :: 0 <= t < |conf| && conf[t] == Down
    {
      assert forall t: nat :: t in unassignedTransitions <==> t < |conf| && conf[t] == Unassigned;
      assert forall t: nat :: t in downgradeTransitions <==> t < |conf| && conf[t] == Down;
    }

    /** All transitions are high, or all are low. */
    ghost predicate Uniform()
      reads this`conf
    {
      (forall t :: 0 <= t < |conf| ==> conf[t] == High) || forall t :: 0 <= t < |conf| ==> conf[t] == Low
    }

    lemma UniformCounts()
      requires Valid()
      ensures Uniform() ==> highLabeledTransitionsCount == |net.pre| || lowLabeledTransitionsCount == |net.pre|
      ensures highLabeledTransitionsCount == |net.pre| || lowLabeledTransitionsCount == |net.pre| ==>
              !AnyActive()
      ensures !AnyActive() <==> Secure(net, conf, propertyToCheck, downgradeTransitions)
    {
      hide Secure;
      if forall t :: 0 <= t < |conf| ==> conf[t] == High { LabelledAll(conf, High); }
      if forall t :: 0 <= t < |conf| ==> conf[t] == Low { LabelledAll(conf, Low); }
      NoActivePlaceIsSecure(net, conf, propertyToCheck, downgradeTransitions);
      if highLabeledTransitionsCount == |net.pre| || lowLabeledTransitionsCount == |net.pre| {
        UniformIsSecure(net, conf, propertyToCheck, downgradeTransitions);
      }
    }

    lemma NothingBelow()
      requires Valid()
      ensures ActiveCount(0) == 0
      ensures ActiveCount(net.places) == 0 <==> !AnyActive()
    {
    }

    // ---------- the characterization ----------

    /** A choice is excluded by an active triple whose high transition is high and whose
        low transition is low. */
    ghost predicate Allowed(kind: Kind, tr: Triple, a: Choice)
      requires Valid()
      reads this`conf, this`highLabeledTransitionsCount, this`lowLabeledTransitionsCount, this`downgradeTransitions
      reads this`unassignedTransitions, this`propertyToCheck
    {
      Examined(net, conf, kind, tr) && Active(net, kind, tr, propertyToCheck, {}) ==> !(a(tr.high) && !a(tr.low))
    }

    ghost predicate AllowedAt(kind: Kind, s: nat, h: nat, k: nat, a: Choice)
      requires Valid()
      reads this`conf, this`highLabeledTransitionsCount, this`lowLabeledTransitionsCount, this`downgradeTransitions
      reads this`unassignedTransitions, this`propertyToCheck
    {
      forall l: nat :: l < k ==> Allowed(kind, Triple(s, h, l), a)
    }

    ghost predicate AllowedPlace(kind: Kind, s: nat, k: nat, a: Choice)
      requires Valid()
      reads this`conf, this`highLabeledTransitionsCount, this`lowLabeledTransitionsCount, this`downgradeTransitions
      reads this`unassignedTransitions, this`propertyToCheck
    {
      forall h: nat :: h < k ==> AllowedAt(kind, s, h, |conf|, a)
    }

    ghost predicate AllowedBelow(k: nat, a: Choice)
      requires Valid()
      reads this`conf, this`highLabeledTransitionsCount, this`lowLabeledTransitionsCount, this`downgradeTransitions
      reads this`unassignedTransitions, this`propertyToCheck
    {
      forall s: nat :: s < k ==> AllowedPlace(Causal, s, |conf|, a) && AllowedPlace(Conflict, s, |conf|, a)
    }

    /** Encodes the given labels. */
    method LabelBdd() returns (output: Bdd)
      ensures forall a: Choice :: output(a) <==> Extends(a, conf)
    {
      output := (a: Choice) => true;
      for t := 0 to |conf|
        invariant forall a: Choice :: output(a) <==> Extends(a, conf[..t])
      {
        var before := output;
        if conf[t] == High {
          output := (a: Choice) => before(a) && a(t);
        } else if conf[t] == Low {
          output := (a: Choice) => before(a) && !a(t);
        }
        forall a: Choice ensures output(a) <==> Extends(a, conf[..t + 1]) {
          ExtendsMore(a, conf, t);
        }
      }
      assert conf[..|conf|] == conf;
    }

    /** Excludes the choices that make one triple a leak. */
    method ConstrainTriple(kind: Kind, tr: Triple, before: Bdd) returns (r: Result<Bdd>)
      requires Ready() && Valid() && ExaminedCopyable() && downgradeTransitions == {}
      modifies this`newArcs
      ensures r.Ok? ==> forall a: Choice :: r.value(a) <==> before(a) && Allowed(kind, tr, a)
      ensures r.Err? ==> r.error == ToolError && (lolaPath == "" || !NeverFails(lola))
    {
      hide Active, Honest, UnitCopies;
      ExaminedInside(net, conf, kind, tr);
      if Examined(net, conf, kind, tr) {
        var b := IsActiveTriple(kind, tr);
        if b.Err? {
          return Err(b.error);
        }
        if b.value {
          var output := (a: Choice) => before(a) && !(a(tr.high) && !a(tr.low));
          return Ok(output);
        }
      }
      return Ok(before);
    }

    method ConstrainHigh(kind: Kind, s: nat, h: nat, before: Bdd) returns (r: Result<Bdd>)
      requires Ready() && Valid() && ExaminedCopyable() && downgradeTransitions == {}
      modifies this`newArcs
      ensures r.Ok? ==> forall a: Choice :: r.value(a) <==> before(a) && AllowedAt(kind, s, h, |conf|, a)
      ensures r.Err? ==> r.error == ToolError && (lolaPath == "" || !NeverFails(lola))
    {
      hide Allowed, Ready, Valid, Honest, NeverFails;
      var output := before;
      for l := 0 to |conf|
        invariant forall a: Choice :: output(a) <==> before(a) && AllowedAt(kind, s, h, l, a)
      {
        var next := ConstrainTriple(kind, Triple(s, h, l), output);
        if next.Err? {
          return next;
        }
        output := next.value;
      }
      return Ok(output);
    }

    method ConstrainPlace(kind: Kind, s: nat, before: Bdd) returns (r: Result<Bdd>)
      requires Ready() && Valid() && ExaminedCopyable() && downgradeTransitions == {}
      modifies this`newArcs
      ensures r.Ok? ==> forall a: Choice :: r.value(a) <==> before(a) && AllowedPlace(kind, s, |conf|, a)
      ensures r.Err? ==> r.error == ToolError && (lolaPath == "" || !NeverFails(lola))
    {
      hide AllowedAt, Ready, Valid, Honest, NeverFails;
      var output := before;
      for h := 0 to |conf|
        invariant forall a: Choice :: output(a) <==> before(a) && AllowedPlace(kind, s, h, a)
      {
        var next := ConstrainHigh(kind, s, h, output);
        if next.Err? {
          return next;
        }
        output := next.value;
      }
      return Ok(output);
    }

    /** The characterization is satisfied by exactly the choices that keep the given
        labels and are secure. */
    method GetCharacterization() returns (r: Result<Bdd>)
      requires Ready() && Valid() && ExaminedCopyable()
      modifies this`newArcs
      ensures downgradeTransitions != {} ==> r == Err(UserError)
      ensures downgradeTransitions == {} && r.Err? ==> r.error == ToolError && (lolaPath == "" || !NeverFails(lola))
      ensures r.Ok? ==> forall a: Choice :: r.value(a) <==>
              Extends(a, conf) && Secure(net, Labels(a, |net.pre|), propertyToCheck, {})
    {
      hide AllowedPlace, Ready, Honest, NeverFails, Extends, Secure, Labels;
      if downgradeTransitions != {} {
        return Err(UserError);
      }
      var labels := LabelBdd();
      var output := labels;
      for s := 0 to net.places
        invariant forall a: Choice :: output(a) <==> labels(a) && AllowedBelow(s, a)
      {
        var next := ConstrainPlace(Causal, s, output);
        if next.Err? {
          return next;
        }
        next := ConstrainPlace(Conflict, s, next.value);
        if next.Err? {
          return next;
        }
        output := next.value;
      }
      forall a: Choice ensures output(a) <==>
        Extends(a, conf) && Secure(net, Labels(a, |net.pre|), propertyToCheck, {}) {
        AllowedIsCharacterized(a);
      }
      return Ok(output);
    }

    lemma AllowedIsCharacterized(a: Choice)
      requires Valid() && downgradeTransitions == {}
      ensures Extends(a, conf) && AllowedBelow(net.places, a) <==>
              Extends(a, conf) && Secure(net, Labels(a, |net.pre|), propertyToCheck, {})
    {
      hide Active, Examined, Secure, Labels;
      forall t | 0 <= t < |conf| ensures conf[t] != Down { assert conf[t] == Down ==> t in Labelled(conf, Down); }
      CharacterizationExact(net, conf, propertyToCheck, a);
      if AllowedBelow(net.places, a) {
        forall kind, tr: Triple | Examined(net, conf, kind, tr) && Active(net, kind, tr, propertyToCheck, {})
          ensures !(a(tr.high) && !a(tr.low)) {
          ExaminedInside(net, conf, kind, tr);
          assert tr == Triple(tr.place, tr.high, tr.low);
          assert AllowedPlace(Causal, tr.place, |conf|, a) && AllowedPlace(Conflict, tr.place, |conf|, a);
          assert kind == Causal || kind == Conflict;
          assert AllowedAt(kind, tr.place, tr.high, |conf|, a);
          assert Allowed(kind, tr, a);
        }
      }
    }
  }

  lemma ExtendsMore(a: Choice, conf: seq<Confidence>, t: nat)
    requires t < |conf|
    ensures Extends(a, conf[..t + 1]) <==>
            Extends(a, conf[..t]) && (conf[t] == High ==> a(t)) && (conf[t] == Low ==> !a(t))
  {
    assert forall u: nat :: u < t ==> conf[..t + 1][u] == conf[..t][u];
    assert conf[..t + 1][t] == conf[t];
  }

  lemma ExaminedInside(net: Net, conf: seq<Confidence>, kind: Kind, tr: Triple)
    requires WellFormedNet(net) && |conf| == |net.pre|
    ensures Examined(net, conf, kind, tr) ==>
            InNet(net, tr) && tr.place < net.places && tr.high < |conf| && tr.low < |conf|
  {
  }

  lemma OneOf()
    ensures One(true) == 1 && One(false) == 0
  {
  }

  lemma PositiveCount(S: set<(nat, nat)>, all: bool, n: nat)
    requires n == if all then |S| else One(S != {})
    ensures n > 0 <==> S != {}
    ensures One(S != {}) == if n > 0 then 1 else 0
  {
  }

  lemma PutsOf(net: Net, t: nat)
    requires t < |net.pre| == |net.post|
    ensures Puts(net, Causal, t) == net.post[t] && Puts(net, Conflict, t) == net.pre[t]
  {
  }

  lemma NoGuards(base: nat, hC: nat)
    ensures GuardArcs(base, [], hC) == {}
  {
  }

  lemma MorePlacesTwice(net: Net, j: nat, k: nat)
    ensures MorePlaces(MorePlaces(net, j), k) == MorePlaces(net, j + k)
  {
    assert net.m0 + seq(j, _ => 1) + seq(k, _ => 1) == net.m0 + seq(j + k, _ => 1);
  }

  /** The collected arcs and the grown net are those of the gadget. */
  lemma PatternAssembled(net: Net, grown: Net, arcs: set<Arc>, takes: map<nat, nat>, puts: map<nat, nat>,
                         lowPre: map<nat, nat>,
                         fired: nat, goal: nat, guards: map<nat, nat>)
    requires WellFormedNet(net) && NewPlaces(net, grown, fired, goal, guards)
    requires Inside(takes, net.places) && Inside(puts, net.places) && Inside(lowPre, net.places)
    requires |grown.pre| == |grown.post| == |net.pre| + 2
    requires forall a :: a in arcs <==> GadgetArc(Flat(takes), Flat(puts), Flat(lowPre), |net.pre|, |net.pre| + 1,
                                                  fired, goal, guards, a)
    ensures forall a :: a in arcs ==> ArcInside(grown, a)
  {
    hide *;
    forall a | a in arcs ensures ArcInside(grown, a) {
      GadgetArcInside(net, grown, takes, puts, lowPre, fired, goal, guards, a);
    }
  }

  lemma CausalArcs(net: Net, arcs: set<Arc>, takes: map<nat, nat>, puts: map<nat, nat>, lowPre: map<nat, nat>, lC: nat,
                   hC: nat, r: seq<nat>, d: seq<nat>)
    requires var n := net.places; arcs == PatternArcs(takes, puts, lowPre, lC, hC, n, n + 1, n + 2, r, d)
    ensures var n := net.places;
            forall a :: a in arcs <==> GadgetArc(Flat(takes), Flat(puts), Flat(lowPre), lC, hC, n, n + 1,
                                                 GuardMap(n + 2, r + d), a)
  {
    hide *;
    var n := net.places;
    forall a ensures a in arcs <==> GadgetArc(Flat(takes), Flat(puts), Flat(lowPre), lC, hC, n, n + 1,
                                              GuardMap(n + 2, r + d), a) {
      PatternArcsMembers(takes, puts, lowPre, lC, hC, n, n + 1, n + 2, r, d, a);
    }
  }

  /** What the causal pattern has collected is a gadget with these guards. */
  lemma CausalGuards(net: Net, grown: Net, arcs: set<Arc>, tr: Triple, r: seq<nat>, d: seq<nat>)
    returns (guards: map<nat, nat>)
    requires |net.pre| == |net.post| && |net.m0| == net.places && tr.high < |net.pre| && tr.low < |net.pre|
    requires grown == MorePlaces(CausalPlaces(net, 0), |r| + |d|) && forall i :: 0 <= i < |r + d| ==>
             (r + d)[i] < |net.pre|
    requires arcs == PatternArcs(net.pre[tr.high], net.post[tr.high], net.pre[tr.low], |net.pre|, |net.pre| + 1,
                                 net.places, net.places + 1, net.places + 2, r, d)
    ensures NewPlaces(net, grown, net.places, net.places + 1, guards)
    ensures grown.pre == net.pre + [map[], map[]] && grown.post == net.post + [map[], map[]]
    ensures forall t :: t in guards.Values <==> t in r + d
    ensures forall a :: a in arcs <==> GadgetArc(Flat(net.pre[tr.high]), Flat(net.post[tr.high]), Flat(net.pre[tr.low]),
                                                 |net.pre|, |net.pre| + 1, net.places, net.places + 1, guards, a)
  {
    hide *;
    guards := GuardMap(net.places + 2, r + d);
    PlacesMore(net, |r| + |d|);
    CausalArcs(net, arcs, net.pre[tr.high], net.post[tr.high], net.pre[tr.low], |net.pre|, |net.pre| + 1, r, d);
    CausalPlacesOK(net, r + d);
    GrownNets(net, |r| + |d|);
    GuardMapValues(net.places + 2, r + d);
  }

  /** In a conflict gadget the high transition is guarded as well. */
  lemma ConflictGuarded(net: Net, tr: Triple, prop: Property, downs: set<nat>)
    ensures Guarded(net, Conflict, tr, prop, downs) == Guarded(net, Causal, tr, prop, downs) + {tr.high}
  {
  }

  lemma ConflictArcs(net: Net, arcs: set<Arc>, takes: map<nat, nat>, lowPre: map<nat, nat>, lC: nat, hC: nat, h: nat,
                     r: seq<nat>, d: seq<nat>)
    requires var n := net.places;
             arcs == PatternArcs(takes, takes, lowPre, lC, hC, n, n + 2, n + 3, r, d) + OneGuard(n + 1, h, hC)
    ensures var n := net.places;
            forall a :: a in arcs <==> GadgetArc(Flat(takes), Flat(takes), Flat(lowPre), lC, hC, n, n + 2,
                                                 GuardMap(n + 3, r + d)[n + 1 := h], a)
  {
    hide *;
    var n := net.places;
    forall a ensures a in arcs <==> GadgetArc(Flat(takes), Flat(takes), Flat(lowPre), lC, hC, n, n + 2,
                                              GuardMap(n + 3, r + d)[n + 1 := h], a) {
      PatternArcsMembers(takes, takes, lowPre, lC, hC, n, n + 2, n + 3, r, d, a);
      GadgetArcMore(Flat(takes), Flat(takes), Flat(lowPre), lC, hC, n, n + 2, GuardMap(n + 3, r + d), n + 1, h, a);
    }
  }

  lemma ValuesMore(guards: map<nat, nat>, e: nat, h: nat)
    requires e !in guards
    ensures guards[e := h].Values == guards.Values + {h}
  {
    assert guards[e := h][e] == h;
    forall t | t in guards.Values ensures t in guards[e := h].Values {
      var p :| p in guards && guards[p] == t;
      assert guards[e := h][p] == t;
    }
  }

  /** What the conflict pattern has collected is a gadget with these guards. */
  lemma ConflictPatternGuards(net: Net, grown: Net, arcs: set<Arc>, tr: Triple, r: seq<nat>, d: seq<nat>)
    returns (guards: map<nat, nat>)
    requires |net.pre| == |net.post| && |net.m0| == net.places && tr.high < |net.pre| && tr.low < |net.pre|
    requires grown == MorePlaces(ConflictPlaces(net, 0), |r| + |d|) && forall i :: 0 <= i < |r + d| ==>
             (r + d)[i] < |net.pre|
    requires arcs == PatternArcs(net.pre[tr.high], net.pre[tr.high], net.pre[tr.low], |net.pre|, |net.pre| + 1,
                                 net.places, net.places + 2, net.places + 3, r, d)
                                   + OneGuard(net.places + 1, tr.high, |net.pre| + 1)
    ensures NewPlaces(net, grown, net.places, net.places + 2, guards)
    ensures grown.pre == net.pre + [map[], map[]] && grown.post == net.post + [map[], map[]]
    ensures forall t :: t in guards.Values <==> t in r + d || t == tr.high
    ensures forall a :: a in arcs <==> GadgetArc(Flat(net.pre[tr.high]), Flat(net.pre[tr.high]), Flat(net.pre[tr.low]),
                                                 |net.pre|, |net.pre| + 1, net.places, net.places + 2, guards, a)
  {
    hide *;
    var n := net.places;
    guards := GuardMap(n + 3, r + d)[n + 1 := tr.high];
    PlacesMore(net, |r| + |d|);
    ConflictArcs(net, arcs, net.pre[tr.high], net.pre[tr.low], |net.pre|, |net.pre| + 1, tr.high, r, d);
    ConflictPlacesOK(net, r + d, tr.high);
    GrownNets(net, |r| + |d|);
    GuardMapValues(n + 3, r + d);
    ValuesMore(GuardMap(n + 3, r + d), n + 1, tr.high);
  }

  lemma PlacesMore(net: Net, k: nat)
    ensures MorePlaces(CausalPlaces(net, 0), k) == CausalPlaces(net, k)
    ensures MorePlaces(ConflictPlaces(net, 0), k) == ConflictPlaces(net, k)
  {
    hide MorePlaces;
    MorePlacesTwice(WithPlace(WithPlace(WithTransition(WithTransition(net)), 0), 0), 0, k);
    MorePlacesTwice(WithPlace(WithPlace(WithPlace(WithTransition(WithTransition(net)), 0), 1), 0), 0, k);
  }

  lemma InNetInside(net: Net, tr: Triple, kind: Kind)
    requires WellFormedNet(net) && InNet(net, tr)
    ensures |net.m0| == net.places && |net.pre| == |net.post|
    ensures Inside(net.pre[tr.high], net.places) && Inside(Puts(net, kind, tr.high), net.places)
    ensures Inside(net.pre[tr.low], net.places)
  {
  }

  lemma SameTransitions(net: Net, k: nat)
    ensures MorePlaces(net, k).post == net.post && MorePlaces(net, k).pre == net.pre
    ensures MorePlaces(net, k).places == net.places + k
  {
  }
}
