/**
 * Strictly increasing sequences of naturals, and sorting with duplicates removed:
 * the deduplicating sort every table builder and the selector apply to
 * the strings they collect.
 */
module Sorted {

  predicate StrictlySorted(xs: seq<nat>)
  {
    forall k, l :: 0 <= k < l < |xs| ==> xs[k] < xs[l]
  }

  /** Prepending an element below everything keeps a sequence strictly sorted. */
  lemma ConsSorted(h: nat, t: seq<nat>)
    requires StrictlySorted(t)
    requires forall y :: y in t ==> h < y
    ensures StrictlySorted([h] + t)
  {
    var r := [h] + t;
    forall k, l | 0 <= k < l < |r|
      ensures r[k] < r[l]
    {
      if k == 0 {
        assert r[l] == t[l - 1];
        assert t[l - 1] in t;
      } else {
        assert r[k] == t[k - 1] && r[l] == t[l - 1];
      }
    }
  }

  /** Appending an element above everything keeps a sequence strictly sorted. */
  lemma SnocSorted(t: seq<nat>, x: nat)
    requires StrictlySorted(t)
    requires forall y :: y in t ==> y < x
    ensures StrictlySorted(t + [x])
  {
    var r := t + [x];
    forall k, l | 0 <= k < l < |r|
      ensures r[k] < r[l]
    {
      assert r[k] == t[k];
      if l < |t| {
        assert r[l] == t[l];
      } else {
        assert t[k] in t;
      }
    }
  }

  /** Inserts `x` into a strictly sorted sequence unless it is already there. */
  function Insert(xs: seq<nat>, x: nat): (r: seq<nat>)
    requires StrictlySorted(xs)
    ensures StrictlySorted(r)
    ensures forall y :: y in r <==> y in xs || y == x
    decreases |xs|
  {
    if |xs| == 0 then [x]
    else if x < xs[0] then
      assert forall y :: y in xs ==> x < y by {
        forall y | y in xs ensures x < y {
          var k :| 0 <= k < |xs| && xs[k] == y;
          assert xs[0] <= xs[k];
        }
      }
      ConsSorted(x, xs);
      [x] + xs
    else if x == xs[0] then xs
    else
      SortedTail(xs, x);
      var rest := Insert(xs[1..], x);
      assert forall y :: y in rest ==> xs[0] < y by {
        forall y | y in rest ensures xs[0] < y {
          SortedTail(xs, y);
        }
      }
      ConsSorted(xs[0], rest);
      [xs[0]] + rest
  }

  /** The distinct elements of `xs` in increasing order. */
  function SortDedup(xs: seq<nat>): (r: seq<nat>)
    ensures StrictlySorted(r)
    ensures forall y :: y in r <==> y in xs
    decreases |xs|
  {
    if |xs| == 0 then []
    else
      assert xs == xs[..|xs| - 1] + [xs[|xs| - 1]];
      Insert(SortDedup(xs[..|xs| - 1]), xs[|xs| - 1])
  }

  /** The elements of `xs` that are not in `ys`, in their original order. */
  function Without(xs: seq<nat>, ys: seq<nat>): (r: seq<nat>)
    ensures forall y :: y in r <==> y in xs && y !in ys
    decreases |xs|
  {
    if |xs| == 0 then []
    else
      assert xs == [xs[0]] + xs[1..];
      (if xs[0] in ys then [] else [xs[0]]) + Without(xs[1..], ys)
  }

  /** A strictly sorted sequence is determined by its elements: sorting a set has one answer. */
  lemma {:induction false} SortedUnique(a: seq<nat>, b: seq<nat>)
    requires StrictlySorted(a) && StrictlySorted(b)
    requires forall y :: y in a <==> y in b
    ensures a == b
    decreases |a|
  {
    if |a| == 0 {
      if |b| > 0 {
        Member(b, 0);
        assert false;
      }
    } else {
      assert a[0] in a;
      assert |b| > 0;
      assert b[0] in b;
      var ka :| 0 <= ka < |a| && a[ka] == b[0];
      var kb :| 0 <= kb < |b| && b[kb] == a[0];
      assert a[0] <= a[ka];
      assert b[0] <= b[kb];
      assert a[0] == b[0];
      forall y
        ensures y in a[1..] <==> y in b[1..]
      {
        SortedTail(a, y);
        SortedTail(b, y);
      }
      SortedUnique(a[1..], b[1..]);
      assert a == [a[0]] + a[1..];
      assert b == [b[0]] + b[1..];
    }
  }

  lemma Member<T>(xs: seq<T>, k: int)
    requires 0 <= k < |xs|
    ensures xs[k] in xs
  {
  }

  /** The tail of a strictly sorted sequence holds exactly its elements above the head. */
  lemma SortedTail(a: seq<nat>, y: nat)
    requires StrictlySorted(a) && |a| > 0
    ensures StrictlySorted(a[1..])
    ensures y in a[1..] <==> y in a && a[0] < y
  {
    if y in a && a[0] < y {
      var k :| 0 <= k < |a| && a[k] == y;
      assert k > 0;
      assert a[1..][k - 1] == y;
    }
    if y in a[1..] {
      var k :| 0 <= k < |a[1..]| && a[1..][k] == y;
      assert a[k + 1] == y;
    }
  }

  /** The prefix before position `k` holds exactly the elements below `xs[k]`. */
  lemma SortedPrefix(xs: seq<nat>, k: nat, y: nat)
    requires StrictlySorted(xs) && k < |xs|
    ensures StrictlySorted(xs[..k])
    ensures y in xs[..k] <==> y in xs && y < xs[k]
  {
    if y in xs && y < xs[k] {
      var m :| 0 <= m < |xs| && xs[m] == y;
      assert xs[..k][m] == y;
    }
    if y in xs[..k] {
      var m :| 0 <= m < k && xs[..k][m] == y;
      assert xs[m] == y;
    }
  }

  /** The suffix after position `k` holds exactly the elements above `xs[k]`. */
  lemma SortedSuffix(xs: seq<nat>, k: nat, y: nat)
    requires StrictlySorted(xs) && k < |xs|
    ensures y in xs[k + 1..] <==> y in xs && xs[k] < y
  {
    if y in xs && xs[k] < y {
      var m :| 0 <= m < |xs| && xs[m] == y;
      assert xs[k + 1..][m - k - 1] == y;
    }
    if y in xs[k + 1..] {
      var m :| 0 <= m < |xs| - k - 1 && xs[k + 1..][m] == y;
      assert xs[m + k + 1] == y;
    }
  }

  /** A sequence whose neighbours increase is strictly sorted. */
  lemma {:induction false} ChainSorted(xs: seq<nat>)
    requires forall k :: 0 <= k < |xs| - 1 ==> xs[k] < xs[k + 1]
    ensures StrictlySorted(xs)
    decreases |xs|
  {
    if |xs| > 1 {
      var t := xs[1..];
      assert forall k :: 0 <= k < |t| - 1 ==> t[k] < t[k + 1] by {
        forall k | 0 <= k < |t| - 1 ensures t[k] < t[k + 1] {
          assert t[k] == xs[k + 1] && t[k + 1] == xs[k + 2];
        }
      }
      ChainSorted(t);
      forall y | y in t ensures xs[0] < y {
        var k :| 0 <= k < |t| && t[k] == y;
        if k > 0 {
          assert t[0] < t[k];
        }
      }
      ConsSorted(xs[0], t);
      assert xs == [xs[0]] + t;
    }
  }
}
