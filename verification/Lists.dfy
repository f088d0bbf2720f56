/** Marking lists: sorting, and ascending lists as the canonical form of a set. */
module Lists {
  import opened Components

  datatype Option<+T> = None | Some(value: T)

  ghost predicate Ascending(s: seq<nat>) {
    forall i, j :: 0 <= i < j < |s| ==> s[i] < s[j]
  }

  ghost predicate Distinct<T>(s: seq<T>) {
    forall i, j :: 0 <= i < j < |s| ==> s[i] != s[j]
  }

  lemma DropLast<T>(s: seq<T>)
    requires s != [] && Distinct(s)
    ensures forall x :: x in s[..|s| - 1] <==> x in s && x != s[|s| - 1]
  {
    assert s == s[..|s| - 1] + [s[|s| - 1]];
  }

  function Insert(x: nat, s: seq<nat>): seq<nat> {
    if s == [] then [x]
    else if x <= s[0] then [x] + s
    else [s[0]] + Insert(x, s[1..])
  }

  /** The library's list sort. */
  function Sort(s: seq<nat>): seq<nat> {
    if s == [] then [] else Insert(s[0], Sort(s[1..]))
  }

  lemma {:induction false} InsertMembers(x: nat, s: seq<nat>)
    ensures |Insert(x, s)| == |s| + 1
    ensures SetOf(Insert(x, s)) == {x} + SetOf(s)
  {
    if s != [] && x > s[0] {
      InsertMembers(x, s[1..]);
      assert s == [s[0]] + s[1..];
      assert forall y :: y in Insert(x, s) <==> y == s[0] || y in Insert(x, s[1..]);
      forall y ensures y in SetOf(Insert(x, s)) <==> y in {x} + SetOf(s) {
        assert y in Insert(x, s[1..]) <==> y in SetOf(Insert(x, s[1..]));
      }
    }
  }

  lemma {:induction false} InsertAscending(x: nat, s: seq<nat>)
    requires Ascending(s) && x !in s
    ensures Ascending(Insert(x, s))
  {
    if s != [] && x > s[0] {
      var r := Insert(x, s[1..]);
      InsertAscending(x, s[1..]);
      InsertMembers(x, s[1..]);
      forall j | 0 <= j < |r| ensures s[0] < r[j] {
        assert r[j] in SetOf(r);
      }
    }
  }

  /** Sorting a list without repetitions gives the ascending list of its elements. */
  lemma {:induction false} SortCorrect(s: seq<nat>)
    requires Distinct(s)
    ensures Ascending(Sort(s)) && SetOf(Sort(s)) == SetOf(s) && |Sort(s)| == |s|
  {
    if s != [] {
      SortCorrect(s[1..]);
      InsertMembers(s[0], Sort(s[1..]));
      assert s == [s[0]] + s[1..];
      assert s[0] !in SetOf(s[1..]);
      assert forall x :: x in Sort(s[1..]) ==> x in SetOf(Sort(s[1..]));
      InsertAscending(s[0], Sort(s[1..]));
    }
  }

  /** Ascending lists with the same elements are the same list. */
  lemma {:induction false} AscendingUnique(a: seq<nat>, b: seq<nat>)
    requires Ascending(a) && Ascending(b) && SetOf(a) == SetOf(b)
    ensures a == b
  {
    assert b == [] || b[0] in SetOf(b);
    if a != [] {
      assert a[0] in SetOf(a);
      assert b != [] by { assert a[0] in SetOf(b); }
      assert b[0] in SetOf(b);
      AscendingHead(a, b);
      forall x ensures x in SetOf(a[1..]) <==> x in SetOf(b[1..]) {
        AscendingTail(a, x);
        AscendingTail(b, x);
      }
      AscendingUnique(a[1..], b[1..]);
      assert a == [a[0]] + a[1..] && b == [b[0]] + b[1..];
    }
  }

  lemma AscendingHead(a: seq<nat>, b: seq<nat>)
    requires Ascending(a) && Ascending(b) && SetOf(a) == SetOf(b) && a != [] && b != []
    ensures a[0] == b[0]
  {
    assert a[0] in SetOf(b) && b[0] in SetOf(a);
    var i :| 0 <= i < |b| && b[i] == a[0];
    var j :| 0 <= j < |a| && a[j] == b[0];
  }

  lemma AscendingTail(a: seq<nat>, x: nat)
    requires Ascending(a) && a != []
    ensures x in SetOf(a[1..]) <==> x in SetOf(a) && x != a[0]
  {
    if x in SetOf(a) && x != a[0] {
      var i :| 0 <= i < |a| && a[i] == x;
      assert a[1..][i - 1] == x;
    }
  }

  lemma {:induction false} AscendingLength(a: seq<nat>)
    requires Ascending(a)
    ensures |SetOf(a)| == |a|
  {
    if a != [] {
      AscendingLength(a[1..]);
      assert SetOf(a) == {a[0]} + SetOf(a[1..]) by {
        forall x ensures x in SetOf(a) <==> x in {a[0]} + SetOf(a[1..]) { AscendingTail(a, x); }
      }
      AscendingTail(a, a[0]);
    }
  }
}
