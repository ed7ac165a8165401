/**
 * Single-excitation tables `cre_des_linkstr` and `cre_des_linkstr_tril`:
 * for each string of the space, its number-operator entries followed by
 * every excitation `a_a^+ a_i` that lands inside the space.
 */
module CreDes {
  import opened Wrappers
  import opened Sorted
  import opened Bits
  import opened Signs
  import opened Space
  import opened LinkTable

  /** Row width `nelec + nelec*(norb - nelec)`. */
  function CreDesWidth(norb: nat, nelec: nat): nat
    requires nelec <= norb
  {
    nelec + nelec * (norb - nelec)
  }

  /** One number-operator entry `(i, i, row, +1)` per occupied orbital, in ascending order. */
  function Diagonal(occ: seq<nat>, row: nat): seq<Entry>
  {
    seq(|occ|, k requires 0 <= k < |occ| => Entry(occ[k], occ[k], row, 1))
  }

  /** For one empty orbital `a`: the excitations `i -> a` of `s`, `i` running up the occupied orbitals, whose target has an address. */
  function SinglesTo(strs: seq<nat>, s: nat, a: nat, occ: seq<nat>): (r: seq<Entry>)
    ensures |r| <= |occ|
    ensures forall e :: e in r <==>
              e.p == a && e.q in occ && Lookup(strs, Excite(s, e.q, a)) == Some(e.dest) &&
              e.sign == CreDesSign(a, e.q, s)
    decreases |occ|
  {
    if |occ| == 0 then []
    else
      var i := occ[0];
      var rest := SinglesTo(strs, s, a, occ[1..]);
      assert occ == [i] + occ[1..];
      match Lookup(strs, Excite(s, i, a))
      case Some(d) => [Entry(a, i, d, CreDesSign(a, i, s))] + rest
      case None => rest
  }

  /** All excitations of `s` whose target has an address, empty orbital outer and occupied orbital inner. */
  function OffDiagonal(strs: seq<nat>, s: nat, vir: seq<nat>, occ: seq<nat>): (r: seq<Entry>)
    ensures |r| <= |vir| * |occ|
    ensures forall e :: e in r <==>
              e.p in vir && e.q in occ && Lookup(strs, Excite(s, e.q, e.p)) == Some(e.dest) &&
              e.sign == CreDesSign(e.p, e.q, s)
    decreases |vir|
  {
    if |vir| == 0 then []
    else
      var r := SinglesTo(strs, s, vir[0], occ) + OffDiagonal(strs, s, vir[1..], occ);
      assert vir == [vir[0]] + vir[1..];
      assert |vir| * |occ| == |occ| + |vir[1..]| * |occ|;
      r
  }

  /** The valid entries of row `row` of `cre_des_linkstr`. */
  function CreDesLinks(strs: seq<nat>, norb: nat, row: nat): seq<Entry>
    requires row < |strs|
  {
    var s := strs[row];
    Diagonal(Occ(s, norb), row) + OffDiagonal(strs, s, Vir(s, norb), Occ(s, norb))
  }

  lemma CreDesCapacity(strs: seq<nat>, norb: nat, nelec: nat, row: nat)
    requires ValidSpace(strs, norb, nelec) && row < |strs|
    ensures |CreDesLinks(strs, norb, row)| <= CreDesWidth(norb, nelec)
  {
    var s := strs[row];
    var occ := Occ(s, norb);
    var vir := Vir(s, norb);
    OccVirCount(s, norb);
    assert ValidString(strs[row], norb, nelec);
    assert |occ| == nelec && |vir| == norb - nelec;
    var off := OffDiagonal(strs, s, vir, occ);
    assert CreDesLinks(strs, norb, row) == Diagonal(occ, row) + off;
    CapacityArith(|Diagonal(occ, row)|, |off|, |vir|, |occ|, norb, nelec);
  }

  lemma CapacityArith(diag: nat, off: nat, nvir: nat, nocc: nat, norb: nat, nelec: nat)
    requires nelec <= norb && diag == nocc == nelec && nvir == norb - nelec && off <= nvir * nocc
    ensures diag + off <= CreDesWidth(norb, nelec)
  {
  }

  function CreDesRow(strs: seq<nat>, norb: nat, nelec: nat, row: nat): (r: Row)
    requires ValidSpace(strs, norb, nelec) && row < |strs|
    ensures |r.slots| == CreDesWidth(norb, nelec) && r.count <= |r.slots|
    ensures Padded([r], CreDesWidth(norb, nelec)) && Valid(r) == CreDesLinks(strs, norb, row)
  {
    CreDesCapacity(strs, norb, nelec, row);
    MakeRow(CreDesLinks(strs, norb, row), CreDesWidth(norb, nelec))
  }

  /**
   * `cre_des_linkstr(strs, norb, nelec)`. The source sizes the table by the
   * number of distinct strings and writes one row per position, so it needs
   * a space without repeats.
   */
  function CreDesLinkstr(strs: seq<nat>, norb: nat, nelec: nat): (t: seq<Row>)
    requires ValidSpace(strs, norb, nelec) && Distinct(strs)
    ensures |t| == |strs| && Padded(t, CreDesWidth(norb, nelec))
  {
    var t := seq(|strs|, r requires 0 <= r < |strs| => CreDesRow(strs, norb, nelec, r));
    assert forall r :: 0 <= r < |t| ==> [t[r]][0] == t[r];
    t
  }

  /** An excitation entry `(a, i, dest, sign)` of string `s`: `i` occupied, `a` empty, `dest` the address of the target. */
  ghost predicate IsSingleLink(strs: seq<nat>, norb: nat, s: nat, e: Entry)
  {
    e.p < norb && e.q < norb && !Bit(s, e.p) && Bit(s, e.q) &&
    e.dest < |strs| && strs[e.dest] == Excite(s, e.q, e.p) &&
    e.sign == CreDesSign(e.p, e.q, s)
  }

  /**
   * Each row opens with one number-operator entry `(i, i, row, +1)` per
   * occupied orbital, in ascending orbital order.
   */
  lemma CreDesDiagonalFirst(strs: seq<nat>, norb: nat, nelec: nat, r: nat)
    requires ValidSpace(strs, norb, nelec) && Distinct(strs) && r < |strs|
    ensures var row := CreDesLinkstr(strs, norb, nelec)[r];
      nelec <= row.count &&
      (forall k :: 0 <= k < nelec ==>
        row.slots[k].p == row.slots[k].q && row.slots[k].p < norb && Bit(strs[r], row.slots[k].p) &&
        row.slots[k].dest == r && row.slots[k].sign == 1) &&
      (forall k, l :: 0 <= k < l < nelec ==> row.slots[k].p < row.slots[l].p) &&
      (forall i: nat :: i < norb && Bit(strs[r], i) ==> exists k :: 0 <= k < nelec && row.slots[k].p == i)
  {
    var row := CreDesLinkstr(strs, norb, nelec)[r];
    var occ := Occ(strs[r], norb);
    DiagonalSlots(strs, norb, nelec, r);
    DiagonalFacts(row.slots, occ, strs[r], norb, r, nelec);
  }

  /** The first `nelec` slots of a row are the diagonal entries over the occupied orbitals. */
  lemma DiagonalSlots(strs: seq<nat>, norb: nat, nelec: nat, r: nat)
    requires ValidSpace(strs, norb, nelec) && Distinct(strs) && r < |strs|
    ensures var row := CreDesLinkstr(strs, norb, nelec)[r];
      nelec == |Occ(strs[r], norb)| && nelec <= row.count <= |row.slots| &&
      row.slots[..nelec] == Diagonal(Occ(strs[r], norb), r)
  {
    var row := CreDesLinkstr(strs, norb, nelec)[r];
    assert row == CreDesRow(strs, norb, nelec, r);
    var diag := Diagonal(Occ(strs[r], norb), r);
    assert Valid(row) == diag + OffDiagonal(strs, strs[r], Vir(strs[r], norb), Occ(strs[r], norb));
    assert row.slots[..nelec] == Valid(row)[..nelec];
  }

  lemma DiagonalFacts(slots: seq<Entry>, occ: seq<nat>, s: nat, norb: nat, r: nat, n: nat)
    requires n == |occ| <= |slots| && slots[..n] == Diagonal(occ, r)
    requires StrictlySorted(occ) && forall x: nat :: x in occ <==> x < norb && Bit(s, x)
    ensures forall k :: 0 <= k < n ==>
        slots[k].p == slots[k].q && slots[k].p < norb && Bit(s, slots[k].p) &&
        slots[k].dest == r && slots[k].sign == 1
    ensures forall k, l :: 0 <= k < l < n ==> slots[k].p < slots[l].p
    ensures forall i: nat :: i < norb && Bit(s, i) ==> exists k :: 0 <= k < n && slots[k].p == i
  {
    assert forall k :: 0 <= k < n ==> slots[k] == slots[..n][k] == Entry(occ[k], occ[k], r, 1);
    assert forall k :: 0 <= k < n ==> occ[k] in occ;
    forall i: nat | i < norb && Bit(s, i)
      ensures exists k :: 0 <= k < n && slots[k].p == i
    {
      var k :| 0 <= k < n && occ[k] == i;
      assert slots[k].p == i;
    }
  }

  /**
   * After the diagonal entries, a row holds exactly the excitations of its
   * string whose target is in the space, each with the target's address and
   * a sign of +1 or -1; targets outside the space are left out. Each
   * excitation appears once, in ascending order of `(a, i)`.
   */
  lemma CreDesOffDiagonal(strs: seq<nat>, norb: nat, nelec: nat, r: nat)
    requires ValidSpace(strs, norb, nelec) && Distinct(strs) && r < |strs|
    ensures var row := CreDesLinkstr(strs, norb, nelec)[r];
      nelec <= row.count <= |row.slots| &&
      (forall e :: e in row.slots[nelec..row.count] <==> IsSingleLink(strs, norb, strs[r], e)) &&
      (forall e :: e in row.slots[nelec..row.count] ==> e.sign == 1 || e.sign == -1) &&
      PairsAscending(row.slots[nelec..row.count]) && PairsDistinct(row.slots[..row.count])
  {
    CreDesOrder(strs, norb, nelec, r);
    var row := CreDesLinkstr(strs, norb, nelec)[r];
    var s := strs[r];
    assert row == CreDesRow(strs, norb, nelec, r);
    var diag := Diagonal(Occ(s, norb), r);
    var off := OffDiagonal(strs, s, Vir(s, norb), Occ(s, norb));
    assert Valid(row) == diag + off;
    assert row.slots[nelec..row.count] == off;
    forall e
      ensures e in off <==> IsSingleLink(strs, norb, s, e)
    {
      LookupIff(strs, Excite(s, e.q, e.p), e.dest);
    }
  }

  /** The excitations `a <- i` for one `a` come in ascending order of `i`. */
  lemma {:induction false} SinglesToAscending(strs: seq<nat>, s: nat, a: nat, occ: seq<nat>)
    requires StrictlySorted(occ)
    ensures PairsAscending(SinglesTo(strs, s, a, occ))
    decreases |occ|
  {
    if |occ| > 0 {
      var i := occ[0];
      var rest := SinglesTo(strs, s, a, occ[1..]);
      SortedTail(occ, 0);
      SinglesToAscending(strs, s, a, occ[1..]);
      match Lookup(strs, Excite(s, i, a))
      case Some(d) =>
        var e := Entry(a, i, d, CreDesSign(a, i, s));
        assert SinglesTo(strs, s, a, occ) == [e] + rest;
        forall f | f in rest
          ensures PairBefore(e, f)
        {
          SortedTail(occ, f.q);
        }
        PairsAscendingConcat([e], rest);
      case None =>
        assert SinglesTo(strs, s, a, occ) == rest;
    }
  }

  /** With `a` outer and `i` inner, the excitations ascend in `(a, i)`: none is written twice. */
  lemma {:induction false} OffDiagonalAscending(strs: seq<nat>, s: nat, vir: seq<nat>, occ: seq<nat>)
    requires StrictlySorted(vir) && StrictlySorted(occ)
    ensures PairsAscending(OffDiagonal(strs, s, vir, occ))
    decreases |vir|
  {
    if |vir| > 0 {
      var a := SinglesTo(strs, s, vir[0], occ);
      var b := OffDiagonal(strs, s, vir[1..], occ);
      assert OffDiagonal(strs, s, vir, occ) == a + b;
      SortedTail(vir, 0);
      SinglesToAscending(strs, s, vir[0], occ);
      OffDiagonalAscending(strs, s, vir[1..], occ);
      forall e, f | e in a && f in b
        ensures PairBefore(e, f)
      {
        SortedTail(vir, f.p);
      }
      PairsAscendingConcat(a, b);
    }
  }

  /** Number-operator entries on distinct orbitals followed by ascending excitations repeat no pair. */
  lemma DiagonalThenOffDistinct(diag: seq<Entry>, off: seq<Entry>)
    requires forall k, l :: 0 <= k < l < |diag| ==> diag[k].p < diag[l].p
    requires forall k :: 0 <= k < |diag| ==> diag[k].p == diag[k].q
    requires forall e :: e in off ==> e.p != e.q
    requires PairsAscending(off)
    ensures PairsDistinct(diag + off)
  {
    var c := diag + off;
    forall k, l | 0 <= k < l < |c|
      ensures c[k].p != c[l].p || c[k].q != c[l].q
    {
      if l < |diag| {
        assert c[k] == diag[k] && c[l] == diag[l];
      } else if k >= |diag| {
        assert c[k] == off[k - |diag|] && c[l] == off[l - |diag|];
      } else {
        assert c[k] == diag[k] && c[l] == off[l - |diag|];
        assert off[l - |diag|] in off;
      }
    }
  }

  /**
   * Each excitation `(a, i)` is written once: after the diagonal the pairs
   * ascend with the empty orbital `a` first, and no pair occurs twice in a
   * row.
   */
  lemma CreDesOrder(strs: seq<nat>, norb: nat, nelec: nat, r: nat)
    requires ValidSpace(strs, norb, nelec) && Distinct(strs) && r < |strs|
    ensures var row := CreDesLinkstr(strs, norb, nelec)[r];
      nelec <= row.count <= |row.slots| &&
      PairsAscending(row.slots[nelec..row.count]) && PairsDistinct(row.slots[..row.count])
  {
    var row := CreDesLinkstr(strs, norb, nelec)[r];
    var s := strs[r];
    var occ := Occ(s, norb);
    var vir := Vir(s, norb);
    assert row == CreDesRow(strs, norb, nelec, r);
    DiagonalSlots(strs, norb, nelec, r);
    var diag := Diagonal(occ, r);
    var off := OffDiagonal(strs, s, vir, occ);
    assert Valid(row) == diag + off;
    assert row.slots[nelec..row.count] == off;
    OffDiagonalAscending(strs, s, vir, occ);
    forall e | e in off
      ensures e.p != e.q
    {
      assert Bit(s, e.q) && !Bit(s, e.p);
    }
    DiagonalThenOffDistinct(diag, off);
  }

  // ---- triangular variant ----

  /** A full-table entry with its orbital pair packed into the first field and 0 in the second. */
  function PackTril(e: Entry): Entry
  {
    Entry(PackPair(e.p, e.q), 0, e.dest, e.sign)
  }

  function MapTril(xs: seq<Entry>): (r: seq<Entry>)
  {
    seq(|xs|, k requires 0 <= k < |xs| => PackTril(xs[k]))
  }

  /** The number-operator entries with `(i, i)` packed into one index and the second field zero. */
  function DiagonalTril(occ: seq<nat>, row: nat): seq<Entry>
  {
    seq(|occ|, k requires 0 <= k < |occ| => Entry(Tri(occ[k]) + occ[k], 0, row, 1))
  }

  function SinglesToTril(strs: seq<nat>, s: nat, a: nat, occ: seq<nat>): seq<Entry>
    decreases |occ|
  {
    if |occ| == 0 then []
    else
      var i := occ[0];
      var rest := SinglesToTril(strs, s, a, occ[1..]);
      match Lookup(strs, Excite(s, i, a))
      case Some(d) =>
        var ai := if a > i then Tri(a) + i else Tri(i) + a;
        [Entry(ai, 0, d, CreDesSign(a, i, s))] + rest
      case None => rest
  }

  function OffDiagonalTril(strs: seq<nat>, s: nat, vir: seq<nat>, occ: seq<nat>): seq<Entry>
    decreases |vir|
  {
    if |vir| == 0 then []
    else SinglesToTril(strs, s, vir[0], occ) + OffDiagonalTril(strs, s, vir[1..], occ)
  }

  function CreDesTrilLinks(strs: seq<nat>, norb: nat, row: nat): seq<Entry>
    requires row < |strs|
  {
    var s := strs[row];
    DiagonalTril(Occ(s, norb), row) + OffDiagonalTril(strs, s, Vir(s, norb), Occ(s, norb))
  }

  lemma MapTrilConcat(a: seq<Entry>, b: seq<Entry>)
    ensures MapTril(a + b) == MapTril(a) + MapTril(b)
  {
  }

  lemma {:induction false} SinglesToTrilPacks(strs: seq<nat>, s: nat, a: nat, occ: seq<nat>)
    ensures SinglesToTril(strs, s, a, occ) == MapTril(SinglesTo(strs, s, a, occ))
    decreases |occ|
  {
    if |occ| > 0 {
      var i := occ[0];
      SinglesToTrilPacks(strs, s, a, occ[1..]);
      var rest := SinglesTo(strs, s, a, occ[1..]);
      var restTril := SinglesToTril(strs, s, a, occ[1..]);
      match Lookup(strs, Excite(s, i, a))
      case Some(d) =>
        var e := Entry(a, i, d, CreDesSign(a, i, s));
        assert SinglesTo(strs, s, a, occ) == [e] + rest;
        assert SinglesToTril(strs, s, a, occ) == [PackTril(e)] + restTril;
        MapTrilConcat([e], rest);
      case None =>
        assert SinglesTo(strs, s, a, occ) == rest;
        assert SinglesToTril(strs, s, a, occ) == restTril;
    }
  }

  lemma {:induction false} OffDiagonalTrilPacks(strs: seq<nat>, s: nat, vir: seq<nat>, occ: seq<nat>)
    ensures OffDiagonalTril(strs, s, vir, occ) == MapTril(OffDiagonal(strs, s, vir, occ))
    decreases |vir|
  {
    if |vir| > 0 {
      SinglesToTrilPacks(strs, s, vir[0], occ);
      OffDiagonalTrilPacks(strs, s, vir[1..], occ);
      MapTrilConcat(SinglesTo(strs, s, vir[0], occ), OffDiagonal(strs, s, vir[1..], occ));
    }
  }

  lemma CreDesTrilLinksPack(strs: seq<nat>, norb: nat, row: nat)
    requires row < |strs|
    ensures CreDesTrilLinks(strs, norb, row) == MapTril(CreDesLinks(strs, norb, row))
  {
    var s := strs[row];
    var occ := Occ(s, norb);
    var vir := Vir(s, norb);
    var diag := Diagonal(occ, row);
    var off := OffDiagonal(strs, s, vir, occ);
    assert CreDesLinks(strs, norb, row) == diag + off;
    assert CreDesTrilLinks(strs, norb, row) == DiagonalTril(occ, row) + OffDiagonalTril(strs, s, vir, occ);
    forall k | 0 <= k < |occ|
      ensures DiagonalTril(occ, row)[k] == MapTril(diag)[k]
    {
      assert PackPair(occ[k], occ[k]) == Tri(occ[k]) + occ[k];
    }
    assert DiagonalTril(occ, row) == MapTril(diag);
    OffDiagonalTrilPacks(strs, s, vir, occ);
    MapTrilConcat(diag, off);
  }

  function CreDesTrilRow(strs: seq<nat>, norb: nat, nelec: nat, row: nat): (r: Row)
    requires ValidSpace(strs, norb, nelec) && row < |strs|
    ensures |r.slots| == CreDesWidth(norb, nelec) && r.count <= |r.slots|
    ensures Padded([r], CreDesWidth(norb, nelec)) && Valid(r) == CreDesTrilLinks(strs, norb, row)
  {
    CreDesCapacity(strs, norb, nelec, row);
    CreDesTrilLinksPack(strs, norb, row);
    MakeRow(CreDesTrilLinks(strs, norb, row), CreDesWidth(norb, nelec))
  }

  /** `cre_des_linkstr_tril(strs, norb, nelec)`. */
  function CreDesLinkstrTril(strs: seq<nat>, norb: nat, nelec: nat): (t: seq<Row>)
    requires ValidSpace(strs, norb, nelec) && Distinct(strs)
    ensures |t| == |strs| && Padded(t, CreDesWidth(norb, nelec))
  {
    var t := seq(|strs|, r requires 0 <= r < |strs| => CreDesTrilRow(strs, norb, nelec, r));
    assert forall r :: 0 <= r < |t| ==> [t[r]][0] == t[r];
    t
  }

  /**
   * The triangular table is the full table with every `(p, q)` packed into
   * `max*(max+1)//2 + min` and the second field zeroed; padding stays zero.
   */
  lemma CreDesTrilMatchesFull(strs: seq<nat>, norb: nat, nelec: nat)
    requires ValidSpace(strs, norb, nelec) && Distinct(strs)
    ensures var full := CreDesLinkstr(strs, norb, nelec);
      var tril := CreDesLinkstrTril(strs, norb, nelec);
      |tril| == |full| &&
      forall r :: 0 <= r < |full| ==>
        tril[r].count == full[r].count && |tril[r].slots| == |full[r].slots| &&
        forall k :: 0 <= k < |full[r].slots| ==> tril[r].slots[k] == PackTril(full[r].slots[k])
  {
    var full := CreDesLinkstr(strs, norb, nelec);
    var tril := CreDesLinkstrTril(strs, norb, nelec);
    var w := CreDesWidth(norb, nelec);
    forall r | 0 <= r < |full|
      ensures tril[r].count == full[r].count && |tril[r].slots| == |full[r].slots|
      ensures forall k :: 0 <= k < |full[r].slots| ==> tril[r].slots[k] == PackTril(full[r].slots[k])
    {
      assert full[r] == CreDesRow(strs, norb, nelec, r);
      assert tril[r] == CreDesTrilRow(strs, norb, nelec, r);
      CreDesTrilLinksPack(strs, norb, r);
      var n := full[r].count;
      forall k | 0 <= k < w
        ensures tril[r].slots[k] == PackTril(full[r].slots[k])
      {
        if k < n {
          assert tril[r].slots[k] == Valid(tril[r])[k];
          assert full[r].slots[k] == Valid(full[r])[k];
        } else {
          assert [full[r]][0] == full[r] && [tril[r]][0] == tril[r];
        }
      }
    }
  }
}
