/**
 * Linkage tables: one row per source address, each a fixed number of
 * `(p, q, dest, sign)` slots of which the first `count` are valid and the
 * rest are zero. Also the triangular packings of orbital pairs.
 */
module LinkTable {

  datatype Entry = Entry(p: nat, q: nat, dest: nat, sign: int)

  const Zero := Entry(0, 0, 0, 0)

  /** A row of the table (`link_index[i0]`) together with its valid count. */
  datatype Row = Row(slots: seq<Entry>, count: nat)

  /** Every row is `width` slots wide and every slot after the valid count is all-zero. */
  predicate Padded(rows: seq<Row>, width: nat)
  {
    forall r :: 0 <= r < |rows| ==>
      |rows[r].slots| == width && rows[r].count <= width &&
      forall k :: rows[r].count <= k < width ==> rows[r].slots[k] == Zero
  }

  /** The valid entries of a row. */
  function Valid(row: Row): seq<Entry>
    requires row.count <= |row.slots|
  {
    row.slots[..row.count]
  }

  /** `e` comes before `f` in the order of orbital pairs, first orbital first. */
  predicate PairBefore(e: Entry, f: Entry)
  {
    e.p < f.p || (e.p == f.p && e.q < f.q)
  }

  /** The orbital pairs of `xs` are strictly ascending, so none of them occurs twice. */
  predicate PairsAscending(xs: seq<Entry>)
  {
    forall k, l :: 0 <= k < l < |xs| ==> PairBefore(xs[k], xs[l])
  }

  /** No orbital pair `(p, q)` occurs in two entries of `xs`. */
  predicate PairsDistinct(xs: seq<Entry>)
  {
    forall k, l :: 0 <= k < l < |xs| ==> xs[k].p != xs[l].p || xs[k].q != xs[l].q
  }

  /** Two ascending runs, every pair of the first before every pair of the second, ascend together. */
  lemma PairsAscendingConcat(a: seq<Entry>, b: seq<Entry>)
    requires PairsAscending(a) && PairsAscending(b)
    requires forall e, f :: e in a && f in b ==> PairBefore(e, f)
    ensures PairsAscending(a + b)
  {
    var c := a + b;
    forall k, l | 0 <= k < l < |c|
      ensures PairBefore(c[k], c[l])
    {
      if l < |a| {
        assert c[k] == a[k] && c[l] == a[l];
      } else if k >= |a| {
        assert c[k] == b[k - |a|] && c[l] == b[l - |a|];
      } else {
        assert c[k] == a[k] && c[l] == b[l - |a|];
        assert a[k] in a && b[l - |a|] in b;
      }
    }
  }

  /** Writes `links`, in order, into the front of a zero-filled row of `width` slots. */
  function MakeRow(links: seq<Entry>, width: nat): (r: Row)
    requires |links| <= width
    ensures |r.slots| == width && r.count == |links|
    ensures Padded([r], width) && Valid(r) == links
  {
    var r := Row(links + seq(width - |links|, _ => Zero), |links|);
    assert [r][0] == r;
    r
  }

  /** `n*(n+1)//2`, the number of pairs `(p, q)` with `q <= p < n`. */
  function Tri(n: nat): nat
  {
    n * (n + 1) / 2
  }

  /** Packed index of an unordered orbital pair, larger orbital first: `p*(p+1)//2 + q` for `p >= q`. */
  function PackPair(p: nat, q: nat): nat
  {
    if p > q then Tri(p) + q else Tri(q) + p
  }

  /** Packed index of a strict pair `j < i`: `i*(i-1)//2 + j`. */
  function PackLower(i: nat, j: nat): nat
  {
    assert i * (i - 1) >= 0;
    i * (i - 1) / 2 + j
  }

  lemma TriStep(n: nat)
    ensures Tri(n + 1) == Tri(n) + n + 1
  {
    assert (n + 1) * (n + 2) == n * (n + 1) + 2 * (n + 1);
  }

  lemma {:induction false} TriMono(m: nat, n: nat)
    requires m <= n
    ensures Tri(m) <= Tri(n)
    decreases n - m
  {
    if m < n {
      TriStep(m);
      TriMono(m + 1, n);
    }
  }

  /** Packed pair indices never collide, and pairs of orbitals below `n` pack below `n*(n+1)//2`. */
  lemma PackPairInjective(p: nat, q: nat, p2: nat, q2: nat, n: nat)
    requires p < n && q < n
    ensures PackPair(p, q) < Tri(n)
    ensures PackPair(p, q) == PackPair(p2, q2) ==>
              (if p > q then p else q) == (if p2 > q2 then p2 else q2) &&
              (if p > q then q else p) == (if p2 > q2 then q2 else p2)
  {
    var hi, lo := if p > q then p else q, if p > q then q else p;
    var hi2, lo2 := if p2 > q2 then p2 else q2, if p2 > q2 then q2 else p2;
    TriStep(hi);
    TriStep(hi2);
    TriMono(hi + 1, n);
    if hi < hi2 {
      TriMono(hi + 1, hi2);
    } else if hi2 < hi {
      TriMono(hi2 + 1, hi);
    }
  }

  /** Strict pairs pack without collisions, below `n*(n-1)//2` when both orbitals are below `n`. */
  lemma PackLowerInjective(i: nat, j: nat, i2: nat, j2: nat, n: nat)
    requires j < i < n && j2 < i2
    ensures PackLower(i, j) < Tri(n - 1)
    ensures PackLower(i, j) == PackLower(i2, j2) ==> i == i2 && j == j2
  {
    assert PackLower(i, j) == Tri(i - 1) + j;
    assert PackLower(i2, j2) == Tri(i2 - 1) + j2;
    TriStep(i - 1);
    TriStep(i2 - 1);
    TriMono(i, n - 1);
    if i < i2 {
      TriMono(i, i2 - 1);
    } else if i2 < i {
      TriMono(i2, i - 1);
    }
  }
}
