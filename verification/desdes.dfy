/**
 * Double-annihilation tables `des_des_linkstr` and `des_des_linkstr_tril`.
 * Rows are indexed by the intermediates (the space's strings with two
 * electrons removed, sorted and deduplicated); a row lists the pairs of
 * electrons that can be created on its intermediate to reach a string of
 * the space.
 */
module DesDes {
  import opened Wrappers
  import opened Sorted
  import opened Bits
  import opened Signs
  import opened Space
  import opened LinkTable

  // ---- intermediates ----

  /** `s` with each pair of its occupied orbitals `j < i` emptied, `i` outer and `j` inner. */
  function PairRemovals(s: nat, occ: seq<nat>): seq<nat>
    decreases |occ|
  {
    if |occ| == 0 then []
    else
      var n := |occ| - 1;
      PairRemovals(s, occ[..n]) + seq(n, k requires 0 <= k < n => Toggle(Toggle(s, occ[n]), occ[k]))
  }

  /** Pair removals over the whole space, in the order the source collects them. */
  function AllPairRemovals(strs: seq<nat>, norb: nat): seq<nat>
    decreases |strs|
  {
    if |strs| == 0 then []
    else
      var n := |strs| - 1;
      AllPairRemovals(strs[..n], norb) + PairRemovals(strs[n], Occ(strs[n], norb))
  }

  /** The pair removals over the whole space, deduplicated and sorted. */
  function DesDesInter(strs: seq<nat>, norb: nat): seq<nat>
  {
    SortDedup(AllPairRemovals(strs, norb))
  }

  /** `x` is `s` with two occupied orbitals `j < i` below `norb` emptied. */
  ghost predicate RemovesPair(s: nat, norb: nat, x: nat)
  {
    exists i: nat, j: nat :: j < i < norb && Bit(s, i) && Bit(s, j) && x == Toggle(Toggle(s, i), j)
  }

  /** `x` is a string of the space with two occupied orbitals emptied. */
  ghost predicate IsPairRemoval(strs: seq<nat>, norb: nat, x: nat)
  {
    exists k :: 0 <= k < |strs| && RemovesPair(strs[k], norb, x)
  }

  /** `x` empties two occupied orbitals `j < i`, both drawn from `occ`, of `s`. */
  ghost predicate RemovesPairOf(s: nat, occ: seq<nat>, x: nat)
  {
    exists i, j :: i in occ && j in occ && j < i && x == Toggle(Toggle(s, i), j)
  }

  /** Every pair removal collected from `occ` empties two orbitals of `occ`. */
  lemma {:induction false} PairRemovalsSource(s: nat, occ: seq<nat>, x: nat)
    requires StrictlySorted(occ) && x in PairRemovals(s, occ)
    ensures RemovesPairOf(s, occ, x)
    decreases |occ|
  {
    var n := |occ| - 1;
    var top := occ[n];
    var pre := occ[..n];
    var tail := seq(n, k requires 0 <= k < n => Toggle(Toggle(s, top), occ[k]));
    assert PairRemovals(s, occ) == PairRemovals(s, pre) + tail;
    if x in PairRemovals(s, pre) {
      SortedPrefix(occ, n, 0);
      PairRemovalsSource(s, pre, x);
      var i, j :| i in pre && j in pre && j < i && x == Toggle(Toggle(s, i), j);
      assert i in occ && j in occ;
    } else {
      var k :| 0 <= k < n && tail[k] == x;
      assert occ[k] in occ && occ[k] < top && top in occ;
    }
  }

  /** Every pair of orbitals `j < i` of `occ` is collected. */
  lemma {:induction false} PairRemovalsCollects(s: nat, occ: seq<nat>, i: nat, j: nat)
    requires StrictlySorted(occ) && i in occ && j in occ && j < i
    ensures Toggle(Toggle(s, i), j) in PairRemovals(s, occ)
    decreases |occ|
  {
    var n := |occ| - 1;
    var top := occ[n];
    var pre := occ[..n];
    var tail := seq(n, k requires 0 <= k < n => Toggle(Toggle(s, top), occ[k]));
    assert PairRemovals(s, occ) == PairRemovals(s, pre) + tail;
    SortedPrefix(occ, n, j);
    if i == top {
      var k :| 0 <= k < n && pre[k] == j;
      assert tail[k] == Toggle(Toggle(s, i), j);
    } else {
      SortedPrefix(occ, n, i);
      PairRemovalsCollects(s, pre, i, j);
    }
  }

  lemma PairRemovalsSpec(s: nat, occ: seq<nat>, x: nat)
    requires StrictlySorted(occ)
    ensures x in PairRemovals(s, occ) <==> RemovesPairOf(s, occ, x)
  {
    if x in PairRemovals(s, occ) {
      PairRemovalsSource(s, occ, x);
    }
    if RemovesPairOf(s, occ, x) {
      var i, j :| i in occ && j in occ && j < i && x == Toggle(Toggle(s, i), j);
      PairRemovalsCollects(s, occ, i, j);
    }
  }

  lemma OccPairs(s: nat, norb: nat, x: nat)
    ensures RemovesPairOf(s, Occ(s, norb), x) <==> RemovesPair(s, norb, x)
  {
    var occ := Occ(s, norb);
    if RemovesPair(s, norb, x) {
      var i: nat, j: nat :| j < i < norb && Bit(s, i) && Bit(s, j) && x == Toggle(Toggle(s, i), j);
      assert i in occ && j in occ;
    }
  }

  lemma {:induction false} AllPairRemovalsSpec(strs: seq<nat>, norb: nat, x: nat)
    ensures x in AllPairRemovals(strs, norb) <==> IsPairRemoval(strs, norb, x)
    decreases |strs|
  {
    if |strs| > 0 {
      var n := |strs| - 1;
      var s := strs[n];
      var pre := strs[..n];
      assert AllPairRemovals(strs, norb) == AllPairRemovals(pre, norb) + PairRemovals(s, Occ(s, norb));
      AllPairRemovalsSpec(pre, norb, x);
      PairRemovalsSpec(s, Occ(s, norb), x);
      OccPairs(s, norb, x);
      if IsPairRemoval(strs, norb, x) {
        var k :| 0 <= k < |strs| && RemovesPair(strs[k], norb, x);
        if k < n {
          assert pre[k] == strs[k];
        }
      }
      if IsPairRemoval(pre, norb, x) {
        var k :| 0 <= k < n && RemovesPair(pre[k], norb, x);
        assert pre[k] == strs[k];
      }
    }
  }

  /**
   * The intermediates are strictly increasing and are exactly the strings
   * obtained from a string of the space by emptying two occupied orbitals.
   */
  lemma DesDesInterSpec(strs: seq<nat>, norb: nat)
    ensures StrictlySorted(DesDesInter(strs, norb))
    ensures forall x :: x in DesDesInter(strs, norb) <==> IsPairRemoval(strs, norb, x)
  {
    forall x ensures x in DesDesInter(strs, norb) <==> IsPairRemoval(strs, norb, x) {
      AllPairRemovalsSpec(strs, norb, x);
    }
  }

  /** Every intermediate lies in the orbital window and carries two electrons fewer. */
  lemma DesDesInterValid(strs: seq<nat>, norb: nat, nelec: nat, x: nat)
    requires ValidSpace(strs, norb, nelec) && x in DesDesInter(strs, norb)
    ensures nelec >= 2 && x < Pow2(norb) && |Occ(x, norb)| == nelec - 2
  {
    DesDesInterSpec(strs, norb);
    var k :| 0 <= k < |strs| && RemovesPair(strs[k], norb, x);
    var s := strs[k];
    var i: nat, j: nat :| j < i < norb && Bit(s, i) && Bit(s, j) && x == Toggle(Toggle(s, i), j);
    assert ValidString(s, norb, nelec);
    ToggleCount(s, i, norb);
    ToggleBound(s, i, norb);
    ToggleBit(s, i, j);
    ToggleCount(Toggle(s, i), j, norb);
    ToggleBound(Toggle(s, i), j, norb);
  }

  // ---- rows ----

  /** Sign of creating `i` on `str1` and then `j` on the result. */
  function PairSign(str1: nat, i: nat, j: nat): int
  {
    CreSign(i, str1) * CreSign(j, SetBit(str1, i))
  }

  function Swap(e: Entry): Entry
  {
    Entry(e.q, e.p, e.dest, -e.sign)
  }

  /** For each empty orbital `j` of `js` (those below `i`) whose pair reaches the space, both orderings of `(i, j)`. */
  function CreatePairs(strs: seq<nat>, str1: nat, i: nat, js: seq<nat>): seq<Entry>
    decreases |js|
  {
    if |js| == 0 then []
    else
      var j := js[0];
      var rest := CreatePairs(strs, str1, i, js[1..]);
      match Lookup(strs, SetBit(SetBit(str1, i), j))
      case Some(d) =>
        var sign := PairSign(str1, i, j);
        [Entry(i, j, d, sign), Entry(j, i, d, -sign)] + rest
      case None => rest
  }

  /** All pairs `j < i` of empty orbitals, `i` outer and `j` inner, that reach the space. */
  function DesDesLinks(strs: seq<nat>, str1: nat, vir: seq<nat>): seq<Entry>
    decreases |vir|
  {
    if |vir| == 0 then []
    else
      var n := |vir| - 1;
      DesDesLinks(strs, str1, vir[..n]) + CreatePairs(strs, str1, vir[n], vir[..n])
  }

  /** Entries come in pairs, the second the first with its orbitals swapped and its sign negated. */
  predicate Antisym(xs: seq<Entry>)
  {
    |xs| % 2 == 0 && forall m :: 0 <= m < |xs| / 2 ==> xs[2 * m + 1] == Swap(xs[2 * m])
  }

  /** The first entry of each pair. */
  function Canonical(xs: seq<Entry>): seq<Entry>
  {
    seq(|xs| / 2, m requires 0 <= m < |xs| / 2 => xs[2 * m])
  }

  lemma AntisymConcat(a: seq<Entry>, b: seq<Entry>)
    requires Antisym(a) && Antisym(b)
    ensures Antisym(a + b)
    ensures Canonical(a + b) == Canonical(a) + Canonical(b)
  {
    var c := a + b;
    assert |c| / 2 == |a| / 2 + |b| / 2;
    forall m | 0 <= m < |c| / 2
      ensures c[2 * m + 1] == Swap(c[2 * m]) && Canonical(c)[m] == (Canonical(a) + Canonical(b))[m]
    {
      if m < |a| / 2 {
        assert c[2 * m] == a[2 * m] && c[2 * m + 1] == a[2 * m + 1];
      } else {
        var m2 := m - |a| / 2;
        assert 2 * m == |a| + 2 * m2;
        assert c[2 * m] == b[2 * m2] && c[2 * m + 1] == b[2 * m2 + 1];
      }
    }
  }

  /** The first entry of a pair created on `str1`: `q < p`, both empty, target found, sign of creating `p` then `q`. */
  ghost predicate CanonLink(strs: seq<nat>, str1: nat, vir: seq<nat>, e: Entry)
  {
    e.p in vir && e.q in vir && e.q < e.p &&
    Lookup(strs, SetBit(SetBit(str1, e.p), e.q)) == Some(e.dest) && e.sign == PairSign(str1, e.p, e.q)
  }

  lemma {:induction false} CreatePairsAntisym(strs: seq<nat>, str1: nat, i: nat, js: seq<nat>)
    ensures Antisym(CreatePairs(strs, str1, i, js)) && |CreatePairs(strs, str1, i, js)| <= 2 * |js|
    decreases |js|
  {
    if |js| > 0 {
      var j := js[0];
      var rest := CreatePairs(strs, str1, i, js[1..]);
      CreatePairsAntisym(strs, str1, i, js[1..]);
      match Lookup(strs, SetBit(SetBit(str1, i), j))
      case Some(d) =>
        var sign := PairSign(str1, i, j);
        AntisymConcat([Entry(i, j, d, sign), Entry(j, i, d, -sign)], rest);
      case None =>
    }
  }

  /** The canonical entry for creating `i` and then `e.q`, with `e.q` drawn from `js`. */
  ghost predicate PairFor(strs: seq<nat>, str1: nat, i: nat, js: seq<nat>, e: Entry)
  {
    e.p == i && e.q in js && Lookup(strs, SetBit(SetBit(str1, i), e.q)) == Some(e.dest) &&
    e.sign == PairSign(str1, i, e.q)
  }

  lemma {:induction false} CreatePairsCanon(strs: seq<nat>, str1: nat, i: nat, js: seq<nat>, e: Entry)
    ensures e in Canonical(CreatePairs(strs, str1, i, js)) <==> PairFor(strs, str1, i, js, e)
    decreases |js|
  {
    if |js| > 0 {
      var j := js[0];
      var rest := CreatePairs(strs, str1, i, js[1..]);
      CreatePairsAntisym(strs, str1, i, js[1..]);
      CreatePairsCanon(strs, str1, i, js[1..], e);
      assert js == [j] + js[1..];
      match Lookup(strs, SetBit(SetBit(str1, i), j))
      case Some(d) =>
        var sign := PairSign(str1, i, j);
        var head := [Entry(i, j, d, sign), Entry(j, i, d, -sign)];
        assert Canonical(head) == [Entry(i, j, d, sign)];
        AntisymConcat(head, rest);
        assert CreatePairs(strs, str1, i, js) == head + rest;
      case None =>
        assert CreatePairs(strs, str1, i, js) == rest;
    }
  }

  lemma PairCountStep(n: nat)
    ensures n * (n - 1) + 2 * n == (n + 1) * n
  {
  }

  lemma {:induction false} DesDesLinksAntisym(strs: seq<nat>, str1: nat, vir: seq<nat>)
    ensures Antisym(DesDesLinks(strs, str1, vir))
    ensures |DesDesLinks(strs, str1, vir)| <= |vir| * (|vir| - 1)
    decreases |vir|
  {
    if |vir| > 0 {
      var n := |vir| - 1;
      var a := DesDesLinks(strs, str1, vir[..n]);
      var b := CreatePairs(strs, str1, vir[n], vir[..n]);
      assert DesDesLinks(strs, str1, vir) == a + b;
      DesDesLinksAntisym(strs, str1, vir[..n]);
      CreatePairsAntisym(strs, str1, vir[n], vir[..n]);
      AntisymConcat(a, b);
      assert |a| <= n * (n - 1) && |b| <= 2 * n;
      PairCountStep(n);
    }
  }

  /** A canonical pair over `vir` either lies within its prefix or creates its last orbital first. */
  lemma CanonLinkSnoc(strs: seq<nat>, str1: nat, vir: seq<nat>, e: Entry)
    requires StrictlySorted(vir) && |vir| > 0
    ensures var n := |vir| - 1;
      CanonLink(strs, str1, vir, e) <==>
      CanonLink(strs, str1, vir[..n], e) || PairFor(strs, str1, vir[n], vir[..n], e)
  {
    var n := |vir| - 1;
    var top := vir[n];
    var pre := vir[..n];
    assert vir == pre + [top];
    SortedPrefix(vir, n, e.p);
    SortedPrefix(vir, n, e.q);
    if CanonLink(strs, str1, vir, e) && e.p != top {
      assert e.p in pre;
      assert e.q in pre;
    }
  }

  lemma {:induction false} DesDesLinksCanon(strs: seq<nat>, str1: nat, vir: seq<nat>, e: Entry)
    requires StrictlySorted(vir)
    ensures e in Canonical(DesDesLinks(strs, str1, vir)) <==> CanonLink(strs, str1, vir, e)
    decreases |vir|
  {
    if |vir| > 0 {
      var n := |vir| - 1;
      var top := vir[n];
      var pre := vir[..n];
      var a := DesDesLinks(strs, str1, pre);
      var b := CreatePairs(strs, str1, top, pre);
      assert DesDesLinks(strs, str1, vir) == a + b;
      SortedPrefix(vir, n, 0);
      DesDesLinksAntisym(strs, str1, pre);
      CreatePairsAntisym(strs, str1, top, pre);
      AntisymConcat(a, b);
      DesDesLinksCanon(strs, str1, pre, e);
      CreatePairsCanon(strs, str1, top, pre, e);
      CanonLinkSnoc(strs, str1, vir, e);
    }
  }

  // ---- table ----

  /** Row width `nvir*nvir` with `nvir = norb - nelec + 2`. */
  function DesDesWidth(norb: nat, nelec: nat): nat
    requires nelec <= norb
  {
    (norb - nelec + 2) * (norb - nelec + 2)
  }

  lemma DesDesCapacity(strs: seq<nat>, norb: nat, nelec: nat, x: nat)
    requires ValidSpace(strs, norb, nelec) && x in DesDesInter(strs, norb)
    ensures |DesDesLinks(strs, x, Vir(x, norb))| <= DesDesWidth(norb, nelec)
  {
    DesDesInterValid(strs, norb, nelec, x);
    OccVirCount(x, norb);
    var vir := Vir(x, norb);
    assert |vir| == norb - nelec + 2;
    DesDesLinksAntisym(strs, x, vir);
    PairsBelowSquare(|vir|);
  }

  lemma PairsBelowSquare(m: nat)
    ensures m * (m - 1) <= m * m
  {
  }

  function DesDesRow(strs: seq<nat>, norb: nat, nelec: nat, x: nat): (r: Row)
    requires ValidSpace(strs, norb, nelec) && x in DesDesInter(strs, norb)
    ensures |r.slots| == DesDesWidth(norb, nelec) && r.count <= |r.slots|
    ensures Padded([r], DesDesWidth(norb, nelec)) && Valid(r) == DesDesLinks(strs, x, Vir(x, norb))
  {
    DesDesCapacity(strs, norb, nelec, x);
    MakeRow(DesDesLinks(strs, x, Vir(x, norb)), DesDesWidth(norb, nelec))
  }

  /** `des_des_linkstr(strs, norb, nelec)`: row `r` belongs to intermediate `DesDesInter(strs, norb)[r]`. */
  function DesDesLinkstr(strs: seq<nat>, norb: nat, nelec: nat): (t: seq<Row>)
    requires ValidSpace(strs, norb, nelec)
    ensures |t| == |DesDesInter(strs, norb)| && Padded(t, DesDesWidth(norb, nelec))
  {
    var inter := DesDesInter(strs, norb);
    var t := seq(|inter|, r requires 0 <= r < |inter| => DesDesRow(strs, norb, nelec, inter[r]));
    assert forall r :: 0 <= r < |t| ==> [t[r]][0] == t[r];
    t
  }

  /**
   * A valid entry `(p, q, dest, sign)` of the row of intermediate `str1`:
   * `p != q` both empty in `str1`, `dest` the address of `str1` with both
   * created, and `sign` the sign of creating `p` and then `q`.
   */
  ghost predicate IsPairLink(strs: seq<nat>, norb: nat, str1: nat, e: Entry)
  {
    e.p < norb && e.q < norb && e.p != e.q && !Bit(str1, e.p) && !Bit(str1, e.q) &&
    Lookup(strs, SetBit(SetBit(str1, e.p), e.q)) == Some(e.dest) &&
    e.sign == PairSign(str1, e.p, e.q)
  }

  lemma AntisymMember(xs: seq<Entry>, e: Entry)
    requires Antisym(xs)
    ensures e in xs <==> e in Canonical(xs) || Swap(e) in Canonical(xs)
  {
    if e in xs {
      var k :| 0 <= k < |xs| && xs[k] == e;
      if k % 2 == 0 {
        assert Canonical(xs)[k / 2] == e;
      } else {
        var m := (k - 1) / 2;
        assert 2 * m + 1 == k;
        assert xs[2 * m + 1] == Swap(xs[2 * m]);
        assert Canonical(xs)[m] == Swap(e);
      }
    }
    if e in Canonical(xs) {
      var m :| 0 <= m < |xs| / 2 && Canonical(xs)[m] == e;
      assert xs[2 * m] == e;
    }
    if Swap(e) in Canonical(xs) {
      var m :| 0 <= m < |xs| / 2 && Canonical(xs)[m] == Swap(e);
      assert xs[2 * m + 1] == Swap(Swap(e)) == e;
    }
  }

  /**
   * Antisymmetry: every row has an even valid count, and each pair is
   * `(i, j, dest, s)` with `j < i` immediately followed by `(j, i, dest, -s)`.
   * The pairs come in ascending order of `(i, j)`.
   */
  lemma DesDesAntisymmetric(strs: seq<nat>, norb: nat, nelec: nat, r: nat)
    requires ValidSpace(strs, norb, nelec) && r < |DesDesInter(strs, norb)|
    ensures var row := DesDesLinkstr(strs, norb, nelec)[r];
      row.count <= |row.slots| && row.count % 2 == 0 &&
      forall m :: 0 <= m < row.count / 2 ==>
        row.slots[2 * m].q < row.slots[2 * m].p &&
        row.slots[2 * m + 1] == Entry(row.slots[2 * m].q, row.slots[2 * m].p, row.slots[2 * m].dest, -row.slots[2 * m].sign)
    ensures var row := DesDesLinkstr(strs, norb, nelec)[r];
      forall m, m' :: 0 <= m < m' < row.count / 2 ==> PairBefore(row.slots[2 * m], row.slots[2 * m'])
  {
    DesDesOrder(strs, norb, nelec, r);
    var inter := DesDesInter(strs, norb);
    var x := inter[r];
    var row := DesDesLinkstr(strs, norb, nelec)[r];
    assert row == DesDesRow(strs, norb, nelec, x);
    var links := Valid(row);
    DesDesLinksAntisym(strs, x, Vir(x, norb));
    forall m | 0 <= m < row.count / 2
      ensures row.slots[2 * m].q < row.slots[2 * m].p
      ensures row.slots[2 * m + 1] == Swap(row.slots[2 * m])
    {
      assert row.slots[2 * m] == links[2 * m] == Canonical(links)[m];
      DesDesLinksCanon(strs, x, Vir(x, norb), links[2 * m]);
      assert row.slots[2 * m + 1] == links[2 * m + 1];
    }
  }

  /**
   * The valid entries of the row of intermediate `str1` are exactly the
   * creations of two distinct empty orbitals that reach a string of the
   * space, each with the address of that string and a sign of +1 or -1,
   * and none of them twice.
   */
  lemma DesDesEntries(strs: seq<nat>, norb: nat, nelec: nat, r: nat)
    requires ValidSpace(strs, norb, nelec) && r < |DesDesInter(strs, norb)|
    ensures var row := DesDesLinkstr(strs, norb, nelec)[r];
      var str1 := DesDesInter(strs, norb)[r];
      row.count <= |row.slots| &&
      (forall e :: e in row.slots[..row.count] <==> IsPairLink(strs, norb, str1, e)) &&
      (forall e :: e in row.slots[..row.count] ==> e.sign == 1 || e.sign == -1) &&
      PairsDistinct(row.slots[..row.count])
  {
    DesDesOrder(strs, norb, nelec, r);
    var inter := DesDesInter(strs, norb);
    var x := inter[r];
    var vir := Vir(x, norb);
    var row := DesDesLinkstr(strs, norb, nelec)[r];
    assert row == DesDesRow(strs, norb, nelec, x);
    var links := Valid(row);
    DesDesLinksAntisym(strs, x, vir);
    forall e
      ensures e in links <==> IsPairLink(strs, norb, x, e)
      ensures e in links ==> e.sign == 1 || e.sign == -1
    {
      AntisymMember(links, e);
      DesDesLinksCanon(strs, x, vir, e);
      DesDesLinksCanon(strs, x, vir, Swap(e));
      SetBitCommute(x, e.p, e.q);
      if e.p != e.q && !Bit(x, e.p) && !Bit(x, e.q) {
        CreatePairSwap(x, e.p, e.q);
      }
    }
  }

  /** The first entries of the pairs created after `i` ascend in the second orbital. */
  lemma {:induction false} CreatePairsAscending(strs: seq<nat>, str1: nat, i: nat, js: seq<nat>)
    requires StrictlySorted(js)
    ensures PairsAscending(Canonical(CreatePairs(strs, str1, i, js)))
    decreases |js|
  {
    if |js| > 0 {
      var j := js[0];
      var rest := CreatePairs(strs, str1, i, js[1..]);
      SortedTail(js, 0);
      CreatePairsAntisym(strs, str1, i, js[1..]);
      CreatePairsAscending(strs, str1, i, js[1..]);
      match Lookup(strs, SetBit(SetBit(str1, i), j))
      case Some(d) =>
        var sign := PairSign(str1, i, j);
        var head := [Entry(i, j, d, sign), Entry(j, i, d, -sign)];
        assert Canonical(head) == [Entry(i, j, d, sign)];
        AntisymConcat(head, rest);
        assert CreatePairs(strs, str1, i, js) == head + rest;
        forall f | f in Canonical(rest)
          ensures PairBefore(Entry(i, j, d, sign), f)
        {
          CreatePairsCanon(strs, str1, i, js[1..], f);
          SortedTail(js, f.q);
        }
        PairsAscendingConcat(Canonical(head), Canonical(rest));
      case None =>
        assert CreatePairs(strs, str1, i, js) == rest;
    }
  }

  /** With `i` outer and `j` inner, the first entries of the pairs ascend in `(i, j)`. */
  lemma {:induction false} DesDesLinksAscending(strs: seq<nat>, str1: nat, vir: seq<nat>)
    requires StrictlySorted(vir)
    ensures PairsAscending(Canonical(DesDesLinks(strs, str1, vir)))
    decreases |vir|
  {
    if |vir| > 0 {
      var n := |vir| - 1;
      var top := vir[n];
      var pre := vir[..n];
      var a := DesDesLinks(strs, str1, pre);
      var b := CreatePairs(strs, str1, top, pre);
      assert DesDesLinks(strs, str1, vir) == a + b;
      SortedPrefix(vir, n, 0);
      DesDesLinksAntisym(strs, str1, pre);
      CreatePairsAntisym(strs, str1, top, pre);
      AntisymConcat(a, b);
      DesDesLinksAscending(strs, str1, pre);
      CreatePairsAscending(strs, str1, top, pre);
      forall e, f | e in Canonical(a) && f in Canonical(b)
        ensures PairBefore(e, f)
      {
        DesDesLinksCanon(strs, str1, pre, e);
        CreatePairsCanon(strs, str1, top, pre, f);
        SortedPrefix(vir, n, e.p);
      }
      PairsAscendingConcat(Canonical(a), Canonical(b));
    }
  }

  /** Pairs whose first entries ascend with `q < p`, each followed by its swap, repeat no orbital pair. */
  lemma AntisymDistinct(xs: seq<Entry>)
    requires Antisym(xs) && PairsAscending(Canonical(xs))
    requires forall m :: 0 <= m < |xs| / 2 ==> xs[2 * m].q < xs[2 * m].p
    ensures PairsDistinct(xs)
  {
    var c := Canonical(xs);
    forall k, l | 0 <= k < l < |xs|
      ensures xs[k].p != xs[l].p || xs[k].q != xs[l].q
    {
      var mk := k / 2;
      var ml := l / 2;
      assert c[mk] == xs[2 * mk] && c[ml] == xs[2 * ml];
      assert xs[2 * mk + 1] == Swap(xs[2 * mk]) && xs[2 * ml + 1] == Swap(xs[2 * ml]);
      assert k == 2 * mk || k == 2 * mk + 1;
      assert l == 2 * ml || l == 2 * ml + 1;
      if mk < ml {
        assert PairBefore(c[mk], c[ml]);
      }
    }
  }

  /**
   * Each pair `j < i` is written once: the first entries of the pairs ascend
   * in `(i, j)`, and no orbital pair occurs twice in a row.
   */
  lemma DesDesOrder(strs: seq<nat>, norb: nat, nelec: nat, r: nat)
    requires ValidSpace(strs, norb, nelec) && r < |DesDesInter(strs, norb)|
    ensures var row := DesDesLinkstr(strs, norb, nelec)[r];
      row.count <= |row.slots| &&
      (forall m, m' :: 0 <= m < m' < row.count / 2 ==> PairBefore(row.slots[2 * m], row.slots[2 * m'])) &&
      PairsDistinct(row.slots[..row.count])
  {
    var inter := DesDesInter(strs, norb);
    var x := inter[r];
    var vir := Vir(x, norb);
    var row := DesDesLinkstr(strs, norb, nelec)[r];
    assert row == DesDesRow(strs, norb, nelec, x);
    var links := Valid(row);
    DesDesLinksAntisym(strs, x, vir);
    DesDesLinksAscending(strs, x, vir);
    forall m | 0 <= m < |links| / 2
      ensures links[2 * m].q < links[2 * m].p
    {
      assert links[2 * m] == Canonical(links)[m];
      DesDesLinksCanon(strs, x, vir, links[2 * m]);
    }
    AntisymDistinct(links);
    forall m, m' | 0 <= m < m' < row.count / 2
      ensures PairBefore(row.slots[2 * m], row.slots[2 * m'])
    {
      assert row.slots[2 * m] == Canonical(links)[m] && row.slots[2 * m'] == Canonical(links)[m'];
    }
  }

  // ---- triangular variant ----

  /** The pairs `(i, j)` over `js` that reach the space, each once, packed as `i*(i-1)//2 + j`. */
  function CreatePairsTril(strs: seq<nat>, str1: nat, i: nat, js: seq<nat>): seq<Entry>
    decreases |js|
  {
    if |js| == 0 then []
    else
      var j := js[0];
      var rest := CreatePairsTril(strs, str1, i, js[1..]);
      match Lookup(strs, SetBit(SetBit(str1, i), j))
      case Some(d) => [Entry(PackLower(i, j), 0, d, PairSign(str1, i, j))] + rest
      case None => rest
  }

  function DesDesTrilLinks(strs: seq<nat>, str1: nat, vir: seq<nat>): seq<Entry>
    decreases |vir|
  {
    if |vir| == 0 then []
    else
      var n := |vir| - 1;
      DesDesTrilLinks(strs, str1, vir[..n]) + CreatePairsTril(strs, str1, vir[n], vir[..n])
  }

  /** A canonical full-table entry with its pair packed into the first field and 0 in the second. */
  function PackLowerEntry(e: Entry): Entry
  {
    Entry(PackLower(e.p, e.q), 0, e.dest, e.sign)
  }

  function MapLower(xs: seq<Entry>): seq<Entry>
  {
    seq(|xs|, k requires 0 <= k < |xs| => PackLowerEntry(xs[k]))
  }

  lemma MapLowerConcat(a: seq<Entry>, b: seq<Entry>)
    ensures MapLower(a + b) == MapLower(a) + MapLower(b)
  {
  }

  lemma {:induction false} CreatePairsTrilPacks(strs: seq<nat>, str1: nat, i: nat, js: seq<nat>)
    ensures CreatePairsTril(strs, str1, i, js) == MapLower(Canonical(CreatePairs(strs, str1, i, js)))
    decreases |js|
  {
    if |js| > 0 {
      var j := js[0];
      var rest := CreatePairs(strs, str1, i, js[1..]);
      var restTril := CreatePairsTril(strs, str1, i, js[1..]);
      CreatePairsTrilPacks(strs, str1, i, js[1..]);
      CreatePairsAntisym(strs, str1, i, js[1..]);
      match Lookup(strs, SetBit(SetBit(str1, i), j))
      case Some(d) =>
        var sign := PairSign(str1, i, j);
        var e := Entry(i, j, d, sign);
        var head := [e, Entry(j, i, d, -sign)];
        assert CreatePairs(strs, str1, i, js) == head + rest;
        assert CreatePairsTril(strs, str1, i, js) == [PackLowerEntry(e)] + restTril;
        assert Canonical(head) == [e];
        AntisymConcat(head, rest);
        MapLowerConcat([e], Canonical(rest));
        assert MapLower([e]) == [PackLowerEntry(e)];
      case None =>
        assert CreatePairs(strs, str1, i, js) == rest;
        assert CreatePairsTril(strs, str1, i, js) == restTril;
    }
  }

  lemma {:induction false} DesDesTrilPacks(strs: seq<nat>, str1: nat, vir: seq<nat>)
    requires StrictlySorted(vir)
    ensures DesDesTrilLinks(strs, str1, vir) == MapLower(Canonical(DesDesLinks(strs, str1, vir)))
    decreases |vir|
  {
    if |vir| > 0 {
      var n := |vir| - 1;
      var a := DesDesLinks(strs, str1, vir[..n]);
      var b := CreatePairs(strs, str1, vir[n], vir[..n]);
      SortedPrefix(vir, n, 0);
      DesDesTrilPacks(strs, str1, vir[..n]);
      CreatePairsTrilPacks(strs, str1, vir[n], vir[..n]);
      DesDesLinksAntisym(strs, str1, vir[..n]);
      CreatePairsAntisym(strs, str1, vir[n], vir[..n]);
      AntisymConcat(a, b);
      MapLowerConcat(Canonical(a), Canonical(b));
    }
  }

  function DesDesTrilRow(strs: seq<nat>, norb: nat, nelec: nat, x: nat): (r: Row)
    requires ValidSpace(strs, norb, nelec) && x in DesDesInter(strs, norb)
    ensures |r.slots| == DesDesWidth(norb, nelec) && r.count <= |r.slots|
    ensures Padded([r], DesDesWidth(norb, nelec)) && Valid(r) == DesDesTrilLinks(strs, x, Vir(x, norb))
  {
    DesDesCapacity(strs, norb, nelec, x);
    DesDesTrilPacks(strs, x, Vir(x, norb));
    MakeRow(DesDesTrilLinks(strs, x, Vir(x, norb)), DesDesWidth(norb, nelec))
  }

  /** `des_des_linkstr_tril(strs, norb, nelec)`. */
  function DesDesLinkstrTril(strs: seq<nat>, norb: nat, nelec: nat): (t: seq<Row>)
    requires ValidSpace(strs, norb, nelec)
    ensures |t| == |DesDesInter(strs, norb)| && Padded(t, DesDesWidth(norb, nelec))
  {
    var inter := DesDesInter(strs, norb);
    var t := seq(|inter|, r requires 0 <= r < |inter| => DesDesTrilRow(strs, norb, nelec, inter[r]));
    assert forall r :: 0 <= r < |t| ==> [t[r]][0] == t[r];
    t
  }

  /**
   * The triangular table keeps one entry per pair: entry `m` of a row is the
   * first entry of pair `m` of the full row, keyed by `i*(i-1)//2 + j`, with
   * the same destination and sign.
   */
  lemma DesDesTrilMatchesFull(strs: seq<nat>, norb: nat, nelec: nat, r: nat)
    requires ValidSpace(strs, norb, nelec) && r < |DesDesInter(strs, norb)|
    ensures var full := DesDesLinkstr(strs, norb, nelec)[r];
      var tril := DesDesLinkstrTril(strs, norb, nelec)[r];
      full.count <= |full.slots| && 2 * tril.count == full.count &&
      forall m :: 0 <= m < tril.count ==>
        tril.slots[m] == Entry(PackLower(full.slots[2 * m].p, full.slots[2 * m].q), 0,
                               full.slots[2 * m].dest, full.slots[2 * m].sign)
  {
    var inter := DesDesInter(strs, norb);
    var x := inter[r];
    var vir := Vir(x, norb);
    var full := DesDesLinkstr(strs, norb, nelec)[r];
    var tril := DesDesLinkstrTril(strs, norb, nelec)[r];
    assert full == DesDesRow(strs, norb, nelec, x);
    assert tril == DesDesTrilRow(strs, norb, nelec, x);
    DesDesLinksAntisym(strs, x, vir);
    DesDesTrilPacks(strs, x, vir);
    forall m | 0 <= m < tril.count
      ensures tril.slots[m] == PackLowerEntry(full.slots[2 * m])
    {
      assert tril.slots[m] == Valid(tril)[m];
      assert full.slots[2 * m] == Valid(full)[2 * m];
    }
  }
}
