/** Reachability in a finite directed graph, given as its set of edges. */
module Reachability {

  /** p is a path from u to v: consecutive vertices are joined by edges. */
  ghost predicate Path<T>(E: set<(T, T)>, p: seq<T>, u: T, v: T) {
    && |p| > 0
    && p[0] == u
    && p[|p| - 1] == v
    && forall i :: 0 <= i < |p| - 1 ==> (p[i], p[i + 1]) in E
  }

  ghost predicate Reach<T(!new)>(E: set<(T, T)>, u: T, v: T) {
    exists p :: Path(E, p, u, v)
  }

  /** No edge of E leaves S. */
  ghost predicate Closed<T(!new)>(E: set<(T, T)>, S: set<T>) {
    forall x, y :: x in S && (x, y) in E ==> y in S
  }

  lemma ReachRefl<T(!new)>(E: set<(T, T)>, u: T)
    ensures Reach(E, u, u)
  {
    assert Path(E, [u], u, u);
  }

  lemma ReachEdge<T(!new)>(E: set<(T, T)>, u: T, v: T)
    requires (u, v) in E
    ensures Reach(E, u, v)
  {
    assert Path(E, [u, v], u, v);
  }

  lemma ReachTrans<T(!new)>(E: set<(T, T)>, u: T, v: T, w: T)
    requires Reach(E, u, v) && Reach(E, v, w)
    ensures Reach(E, u, w)
  {
    var p :| Path(E, p, u, v);
    var q :| Path(E, q, v, w);
    var r := p + q[1..];
    forall i | 0 <= i < |r| - 1 ensures (r[i], r[i + 1]) in E {
      if i < |p| - 1 {
        assert r[i] == p[i] && r[i + 1] == p[i + 1];
      } else {
        assert r[i] == q[i - |p| + 1] && r[i + 1] == q[i - |p| + 2];
      }
    }
    assert Path(E, r, u, w);
  }

  /** Nothing outside a closed set is reachable from inside it. */
  lemma {:induction false} ReachStaysInClosed<T(!new)>(E: set<(T, T)>, S: set<T>, u: T, v: T)
    requires Closed(E, S) && u in S && Reach(E, u, v)
    ensures v in S
  {
    var p :| Path(E, p, u, v);
    var i := 0;
    while i < |p| - 1
      invariant 0 <= i < |p| && p[i] in S
    {
      assert (p[i], p[i + 1]) in E;
      i := i + 1;
    }
  }
}
