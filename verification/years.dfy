/** Sequences of years kept strictly ascending, so each year appears once:
    the key order of a discount-rate series after a merge. */
module Years {

  predicate Increasing(s: seq<int>) {
    forall i, j :: 0 <= i < j < |s| ==> s[i] < s[j]
  }

  function Elems(s: seq<int>): set<int> {
    set y | y in s
  }

  /** Inserts `y` at its place in an ascending sequence, unless it is present. */
  function Insert(s: seq<int>, y: int): (r: seq<int>)
    requires Increasing(s)
    ensures Increasing(r)
    ensures Elems(r) == Elems(s) + {y}
  {
    if |s| == 0 then [y]
    else if y < s[0] then [y] + s
    else if y == s[0] then s
    else
      var t := Insert(s[1..], y);
      InsertStep(s, y, t);
      [s[0]] + t
  }

  /** The step of `Insert` past the head: inserting `y` into the tail and
      putting the head back in front keeps the sequence ascending and adds
      exactly `y`. */
  lemma InsertStep(s: seq<int>, y: int, t: seq<int>)
    requires Increasing(s) && |s| > 0 && s[0] < y
    requires Increasing(t) && Elems(t) == Elems(s[1..]) + {y}
    ensures Increasing([s[0]] + t)
    ensures Elems([s[0]] + t) == Elems(s) + {y}
  {
    assert Elems(s) == {s[0]} + Elems(s[1..]);
    forall k | 0 <= k < |t|
      ensures s[0] < t[k]
    {
      assert t[k] in Elems(t);
    }
    PrependSmaller(s[0], t);
    ElemsPrepend(s[0], t);
  }

  /** Putting a value below every element in front keeps a sequence ascending. */
  lemma PrependSmaller(x: int, t: seq<int>)
    requires Increasing(t)
    requires forall k :: 0 <= k < |t| ==> x < t[k]
    ensures Increasing([x] + t)
  {
    assert forall k :: 1 <= k < |[x] + t| ==> ([x] + t)[k] == t[k - 1];
  }

  lemma ElemsPrepend(x: int, t: seq<int>)
    ensures Elems([x] + t) == {x} + Elems(t)
  {
    assert forall z :: z in [x] + t <==> z == x || z in t;
  }

  /** The distinct years of `ys`, ascending. */
  function SortedDistinct(ys: seq<int>): (r: seq<int>)
    ensures Increasing(r)
    ensures Elems(r) == Elems(ys)
  {
    if |ys| == 0 then []
    else
      var r := Insert(SortedDistinct(ys[..|ys| - 1]), ys[|ys| - 1]);
      assert Elems(ys) == Elems(ys[..|ys| - 1]) + {ys[|ys| - 1]};
      r
  }

  lemma NoElemsIsEmpty(s: seq<int>)
    ensures Elems(s) == {} ==> s == []
  {
    if |s| > 0 {
      assert s[0] in Elems(s);
    }
  }

  /** An ascending sequence is determined by its set of elements. */
  lemma {:induction false} IncreasingUnique(a: seq<int>, b: seq<int>)
    requires Increasing(a) && Increasing(b)
    requires Elems(a) == Elems(b)
    ensures a == b
  {
    if |a| == 0 {
      NoElemsIsEmpty(b);
    } else {
      assert a[0] in Elems(b);
      assert b[0] in Elems(a);
      assert |b| > 0;
      assert a[0] == b[0] by {
        var i :| 0 <= i < |b| && b[i] == a[0];
        var j :| 0 <= j < |a| && a[j] == b[0];
        assert b[0] <= b[i];
        assert a[0] <= a[j];
      }
      assert Elems(a) == {a[0]} + Elems(a[1..]);
      assert Elems(b) == {b[0]} + Elems(b[1..]);
      assert a[0] !in Elems(a[1..]);
      assert b[0] !in Elems(b[1..]);
      IncreasingUnique(a[1..], b[1..]);
      assert a == [a[0]] + a[1..];
      assert b == [b[0]] + b[1..];
    }
  }

  /** Sorting and deduplicating an already ascending sequence is the identity. */
  lemma SortedDistinctOfIncreasing(ys: seq<int>)
    requires Increasing(ys)
    ensures SortedDistinct(ys) == ys
  {
    IncreasingUnique(SortedDistinct(ys), ys);
  }

  /** An ascending sequence has as many entries as distinct elements. */
  lemma {:induction false} IncreasingCard(s: seq<int>)
    requires Increasing(s)
    ensures |Elems(s)| == |s|
  {
    if |s| > 0 {
      assert Elems(s) == {s[0]} + Elems(s[1..]);
      assert s[0] !in Elems(s[1..]);
      IncreasingCard(s[1..]);
    }
  }

  /** Distinct ascending integers climb by at least one per position. */
  lemma {:induction false} StepUp(s: seq<int>, a: nat, b: nat)
    requires Increasing(s)
    requires a <= b < |s|
    ensures s[b] >= s[a] + (b - a)
    decreases b - a
  {
    if a < b {
      StepUp(s, a + 1, b);
    }
  }
}
