/** The ascending key order in which a `BTreeMap` is walked, and sizes of sets. */
module Ordered {

  ghost predicate Ascending(q: seq<int>) {
    forall i, j :: 0 <= i < j < |q| ==> q[i] < q[j]
  }

  predicate IsLeast(least: int, s: set<int>) {
    least in s && forall k :: k in s ==> least <= k
  }

  lemma {:induction false} HasLeast(s: set<int>) returns (least: int)
    requires s != {}
    ensures IsLeast(least, s)
    decreases |s|
  {
    assert (forall k :: k !in s) ==> s == {};
    least :| least in s;
    var rest := s - {least};
    if rest == {} {
      assert s == {least};
    } else {
      var y := HasLeast(rest);
      assert s == rest + {least};
      if y < least { least := y; }
    }
  }

  lemma ConsAscending(least: int, rest: seq<int>, s: set<int>)
    requires IsLeast(least, s) && Ascending(rest)
    requires forall k :: k in rest <==> k in s - {least}
    ensures Ascending([least] + rest)
    ensures forall k :: k in [least] + rest <==> k in s
  {
    forall i | 0 <= i < |rest| ensures least < rest[i] {
      assert rest[i] in rest;
    }
  }

  // The elements of a set in ascending order.
  function Sorted(s: set<int>): (q: seq<int>)
    ensures Ascending(q)
    ensures forall k :: k in q <==> k in s
    ensures |q| == |s|
  {
    if s == {} then []
    else
      assert exists least :: IsLeast(least, s) by { var least := HasLeast(s); }
      var least :| IsLeast(least, s);
      var rest := Sorted(s - {least});
      ConsAscending(least, rest, s);
      [least] + rest
  }

  lemma SortedFirst(s: set<int>)
    requires s != {}
    ensures Sorted(s) != [] && IsLeast(Sorted(s)[0], s)
  {
    var q := Sorted(s);
    assert q[0] in q;
    forall k | k in s ensures q[0] <= k {
      var i :| 0 <= i < |q| && q[i] == k;
    }
  }

  // The elements of `q` that belong to `s`, in the order of `q`.
  function Select(q: seq<int>, s: set<int>): (r: seq<int>)
    ensures forall k :: k in r <==> k in q && k in s
  {
    if q == [] then []
    else
      var init, last := q[..|q| - 1], q[|q| - 1];
      assert q == init + [last];
      if last in s then Select(init, s) + [last] else Select(init, s)
  }

  lemma {:induction false} SelectAscending(q: seq<int>, s: set<int>)
    requires Ascending(q)
    ensures Ascending(Select(q, s))
  {
    if q != [] {
      var init, last := q[..|q| - 1], q[|q| - 1];
      SelectAscending(init, s);
      assert forall k :: k in Select(init, s) ==> k in init && k < last;
      var r := Select(init, s);
      assert forall i :: 0 <= i < |r| ==> r[i] in r;
    }
  }

  lemma SelectNext(q: seq<int>, s: set<int>, i: nat)
    requires i < |q|
    ensures Select(q[..i + 1], s) == if q[i] in s then Select(q[..i], s) + [q[i]] else Select(q[..i], s)
  {
    assert q[..i + 1][..i] == q[..i];
  }

  // Selecting from a longer walk only appends.
  lemma {:induction false} SelectPrefix(q: seq<int>, s: set<int>, i: nat)
    requires i <= |q|
    ensures |Select(q[..i], s)| <= |Select(q, s)|
    ensures Select(q[..i], s) == Select(q, s)[..|Select(q[..i], s)|]
    decreases |q| - i
  {
    if i == |q| {
      assert q[..i] == q;
    } else {
      SelectNext(q, s, i);
      SelectPrefix(q, s, i + 1);
    }
  }

  // Distinct elements of a sequence, counted as a set.
  lemma {:induction false} AscendingSetSize(q: seq<int>)
    requires Ascending(q)
    ensures |set k | k in q| == |q|
  {
    if q != [] {
      var init, last := q[..|q| - 1], q[|q| - 1];
      AscendingSetSize(init);
      assert q == init + [last];
      assert (set k | k in q) == (set k | k in init) + {last};
    }
  }

  lemma SubsetSize<T>(a: set<T>, b: set<T>)
    requires a <= b
    ensures |a| <= |b|
  {
    assert b == a + (b - a);
  }
}
