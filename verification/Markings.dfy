/** The reachability graph of the inner of an open net, and its communication labels. */
module Markings {
  import opened Reachability
  import opened Sets

  const TAU: nat := 0

  /** Labels 2 .. are first the receiving and then the sending events of the interface. */
  datatype Alphabet = Alphabet(receives: nat, sends: nat) {
    function FirstReceive(): nat { 2 }
    function LastReceive(): nat { 1 + receives }
    function FirstSend(): nat { 2 + receives }
    function LastSend(): nat { 1 + receives + sends }
    function Events(): nat { 1 + receives + sends }

    predicate Sending(l: nat) { FirstSend() <= l <= LastSend() }
    predicate Receiving(l: nat) { FirstReceive() <= l <= LastReceive() }
    predicate Visible(l: nat) { 2 <= l <= Events() }
  }

  /** The visible labels are the numbers from 2 on, one for each event: first the receiving
      ones, then the sending ones. Neither tau nor the broken bound is among them. */
  lemma LabelRanges(ab: Alphabet)
    ensures forall l: nat :: ab.Visible(l) <==> 2 <= l < 2 + ab.receives + ab.sends
    ensures forall l: nat :: ab.Visible(l) <==> ab.Receiving(l) || ab.Sending(l)
    ensures forall l: nat :: !(ab.Receiving(l) && ab.Sending(l))
    ensures forall r: nat, s: nat :: ab.Receiving(r) && ab.Sending(s) ==> r < s
    ensures forall l: nat :: ab.Receiving(l) <==> l in Range(2, ab.receives)
    ensures forall l: nat :: ab.Sending(l) <==> l in Range(2 + ab.receives, ab.sends)
    ensures TAU == 0 && !ab.Visible(0) && !ab.Visible(1)
    ensures |Range(2, ab.receives)| == ab.receives && |Range(2 + ab.receives, ab.sends)| == ab.sends
  {
    RangeSize(2, ab.receives);
    RangeSize(2 + ab.receives, ab.sends);
  }

  datatype InnerMarking = InnerMarking(labels: seq<nat>, successors: seq<nat>, isFinal: bool, isBad: bool)

  ghost predicate WellFormed(g: seq<InnerMarking>) {
    forall m :: 0 <= m < |g| ==>
      && |g[m].labels| == |g[m].successors|
      && forall i :: 0 <= i < |g[m].successors| ==> g[m].successors[i] < |g|
  }

  ghost predicate HasEdge(g: seq<InnerMarking>, m: nat, l: nat, m': nat) {
    && m < |g|
    && exists i :: 0 <= i < |g[m].labels| && i < |g[m].successors| && g[m].labels[i] == l && g[m].successors[i] == m'
  }

  ghost function TauSteps(g: seq<InnerMarking>): (E: set<(nat, nat)>)
  {
    set m: nat, m': nat | m < |g| && m' < |g| && HasEdge(g, m, TAU, m') :: (m, m')
  }

  ghost predicate BadReachable(g: seq<InnerMarking>, m: nat) {
    exists b: nat :: b < |g| && g[b].isBad && Reach(TauSteps(g), m, b)
  }

  /** The tau-closure of a marking. */
  ghost function Closure(g: seq<InnerMarking>, m: nat): set<nat> {
    set m': nat | m' < |g| && Reach(TauSteps(g), m, m')
  }
}
