/**
 * The order Python's `sorted` uses on `str`: lexicographic on code points,
 * a proper prefix before any extension of it. Also sorted sequences without
 * repetitions, and the insertion that builds one from a set.
 */
module StringOrder {

  /** Python's `a < b` on strings. */
  predicate Less(a: string, b: string)
    decreases |a|
  {
    if |a| == 0 then |b| > 0
    else |b| > 0 && (a[0] < b[0] || (a[0] == b[0] && Less(a[1..], b[1..])))
  }

  lemma {:induction false} LessIrreflexive(a: string)
    ensures !Less(a, a)
    decreases |a|
  {
    if |a| > 0 {
      LessIrreflexive(a[1..]);
    }
  }

  lemma {:induction false} LessTransitive(a: string, b: string, c: string)
    requires Less(a, b) && Less(b, c)
    ensures Less(a, c)
    decreases |a|
  {
    if |a| > 0 && a[0] == b[0] && b[0] == c[0] {
      LessTransitive(a[1..], b[1..], c[1..]);
    }
  }

  lemma {:induction false} LessTotal(a: string, b: string)
    requires a != b
    ensures Less(a, b) || Less(b, a)
    decreases |a|
  {
    if |a| > 0 && |b| > 0 && a[0] == b[0] {
      assert a == [a[0]] + a[1..] && b == [b[0]] + b[1..];
      LessTotal(a[1..], b[1..]);
    }
  }

  lemma LessAsymmetric(a: string, b: string)
    requires Less(a, b)
    ensures !Less(b, a)
  {
    if Less(b, a) {
      LessTransitive(a, b, a);
      LessIrreflexive(a);
    }
  }

  /** The elements of a sequence, as a set. */
  function Elems(xs: seq<string>): set<string> {
    set x | x in xs
  }

  /** Ascending without repetitions: what `sorted(some_set)` returns. */
  ghost predicate StrictlySorted(xs: seq<string>) {
    forall i, j :: 0 <= i < j < |xs| ==> Less(xs[i], xs[j])
  }

  lemma StrictlySortedHasNoDuplicates(xs: seq<string>)
    requires StrictlySorted(xs)
    ensures forall i, j :: 0 <= i < |xs| && 0 <= j < |xs| && i != j ==> xs[i] != xs[j]
    ensures |Elems(xs)| == |xs|
  {
    forall i, j | 0 <= i < |xs| && 0 <= j < |xs| && i != j
      ensures xs[i] != xs[j]
    {
      if i < j { LessIrreflexive(xs[i]); } else { LessIrreflexive(xs[j]); }
    }
    DistinctElemsCount(xs);
  }

  lemma {:induction false} DistinctElemsCount(xs: seq<string>)
    requires forall i, j :: 0 <= i < |xs| && 0 <= j < |xs| && i != j ==> xs[i] != xs[j]
    ensures |Elems(xs)| == |xs|
    decreases |xs|
  {
    if |xs| > 0 {
      var t := xs[1..];
      DistinctElemsCount(t);
      assert Elems(xs) == {xs[0]} + Elems(t);
      assert xs[0] !in Elems(t);
    }
  }

  /** Prepending an element below all the others keeps a sequence strictly sorted. */
  lemma ConsSorted(y: string, ys: seq<string>)
    requires StrictlySorted(ys)
    requires forall z :: z in ys ==> Less(y, z)
    ensures StrictlySorted([y] + ys)
  {
    var r := [y] + ys;
    forall i, j | 0 <= i < j < |r|
      ensures Less(r[i], r[j])
    {
      if i > 0 {
        assert r[i] == ys[i - 1] && r[j] == ys[j - 1];
      } else {
        assert r[j] in ys;
      }
    }
  }

  /** Adds `x` to a strictly sorted sequence at its place; no effect if `x` is already there. */
  function Insert(x: string, xs: seq<string>): (r: seq<string>)
    requires StrictlySorted(xs)
    ensures StrictlySorted(r)
    ensures Elems(r) == Elems(xs) + {x}
    decreases |xs|
  {
    if |xs| == 0 then
      [x]
    else if x == xs[0] then
      assert Elems(xs) == Elems(xs) + {x};
      xs
    else if Less(x, xs[0]) then
      InsertBelowHead(x, xs);
      [x] + xs
    else
      LessTotal(x, xs[0]);
      var tail := Insert(x, xs[1..]);
      InsertAboveHead(x, xs, tail);
      [xs[0]] + tail
  }

  lemma InsertBelowHead(x: string, xs: seq<string>)
    requires StrictlySorted(xs) && |xs| > 0 && Less(x, xs[0])
    ensures StrictlySorted([x] + xs)
    ensures Elems([x] + xs) == Elems(xs) + {x}
  {
    forall z | z in xs
      ensures Less(x, z)
    {
      var k :| 0 <= k < |xs| && xs[k] == z;
      if k > 0 { LessTransitive(x, xs[0], z); }
    }
    ConsSorted(x, xs);
  }

  lemma InsertAboveHead(x: string, xs: seq<string>, tail: seq<string>)
    requires StrictlySorted(xs) && |xs| > 0 && Less(xs[0], x)
    requires StrictlySorted(tail) && Elems(tail) == Elems(xs[1..]) + {x}
    ensures StrictlySorted([xs[0]] + tail)
    ensures Elems([xs[0]] + tail) == Elems(xs) + {x}
  {
    forall z | z in tail
      ensures Less(xs[0], z)
    {
      assert z in Elems(tail);
      if z != x {
        var k :| 0 <= k < |xs[1..]| && xs[1..][k] == z;
        assert xs[k + 1] == z;
      }
    }
    ConsSorted(xs[0], tail);
    assert Elems([xs[0]] + tail) == {xs[0]} + Elems(tail);
    assert xs == [xs[0]] + xs[1..];
    assert Elems(xs) == {xs[0]} + Elems(xs[1..]);
  }

  /**
   * A strictly sorted sequence is determined by its elements: whatever order a
   * set's members were visited in, sorting them gives one and the same list.
   */
  lemma {:induction false} SortedIsUnique(xs: seq<string>, ys: seq<string>)
    requires StrictlySorted(xs) && StrictlySorted(ys)
    requires Elems(xs) == Elems(ys)
    ensures xs == ys
    decreases |xs|
  {
    assert |ys| == 0 || ys[0] in Elems(ys);
    if |xs| > 0 {
      assert xs[0] in Elems(ys);
      assert |ys| > 0;
      assert ys[0] in Elems(xs);
      if xs[0] != ys[0] {
        var i :| 0 <= i < |xs| && xs[i] == ys[0];
        var j :| 0 <= j < |ys| && ys[j] == xs[0];
        assert Less(xs[0], ys[0]);
        assert Less(ys[0], xs[0]);
        LessAsymmetric(xs[0], ys[0]);
      }
      HeadNotInTail(xs);
      HeadNotInTail(ys);
      assert xs == [xs[0]] + xs[1..] && ys == [ys[0]] + ys[1..];
      assert Elems(xs) == {xs[0]} + Elems(xs[1..]);
      assert Elems(ys) == {ys[0]} + Elems(ys[1..]);
      assert Elems(xs[1..]) == Elems(ys[1..]);
      SortedIsUnique(xs[1..], ys[1..]);
    }
  }

  lemma HeadNotInTail(xs: seq<string>)
    requires StrictlySorted(xs) && |xs| > 0
    ensures xs[0] !in Elems(xs[1..])
  {
    if xs[0] in xs[1..] {
      var k :| 0 <= k < |xs[1..]| && xs[1..][k] == xs[0];
      assert Less(xs[0], xs[k + 1]);
      LessIrreflexive(xs[0]);
    }
  }

  /** Python's `sorted(s)` for a set of strings. */
  method SortSet(s: set<string>) returns (r: seq<string>)
    ensures StrictlySorted(r)
    ensures Elems(r) == s
  {
    r := [];
    var rest := s;
    while rest != {}
      invariant StrictlySorted(r)
      invariant Elems(r) + rest == s
      decreases rest
    {
      var x :| x in rest;
      r := Insert(x, r);
      rest := rest - {x};
    }
  }
}
