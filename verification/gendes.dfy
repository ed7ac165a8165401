/**
 * The single-operator tables `gen_des_linkstr` and `gen_cre_linkstr`. Their
 * rows are indexed by intermediates: the space's strings with one electron
 * removed (for `gen_des_linkstr`) or added (for `gen_cre_linkstr`), sorted and
 * deduplicated. A row lists the operators that take its intermediate back
 * into the space. Both builders return nothing when no intermediate can
 * exist: `gen_des_linkstr` for an empty string, `gen_cre_linkstr` for a
 * full one.
 */
module GenLink {
  import opened Wrappers
  import opened Sorted
  import opened Bits
  import opened Signs
  import opened Space
  import opened LinkTable

  // ---- intermediates of gen_des_linkstr ----

  /** `s` with each of its occupied orbitals emptied in turn. */
  function RemoveEach(s: nat, occ: seq<nat>): seq<nat>
  {
    seq(|occ|, k requires 0 <= k < |occ| => Toggle(s, occ[k]))
  }

  /** Single removals over the whole space, in the order the source collects them. */
  function AllRemovals(strs: seq<nat>, norb: nat): seq<nat>
    decreases |strs|
  {
    if |strs| == 0 then []
    else
      var n := |strs| - 1;
      AllRemovals(strs[..n], norb) + RemoveEach(strs[n], Occ(strs[n], norb))
  }

  /** The single removals over the whole space, deduplicated and sorted. */
  function DesInter(strs: seq<nat>, norb: nat): seq<nat>
  {
    SortDedup(AllRemovals(strs, norb))
  }

  /** `x` is `s` with one occupied orbital below `norb` emptied. */
  ghost predicate RemovesOne(s: nat, norb: nat, x: nat)
  {
    exists i: nat :: i < norb && Bit(s, i) && x == Toggle(s, i)
  }

  /** `x` is a string of the space with one occupied orbital emptied. */
  ghost predicate IsRemoval(strs: seq<nat>, norb: nat, x: nat)
  {
    exists k :: 0 <= k < |strs| && RemovesOne(strs[k], norb, x)
  }

  lemma RemoveEachSpec(s: nat, norb: nat, x: nat)
    ensures x in RemoveEach(s, Occ(s, norb)) <==> RemovesOne(s, norb, x)
  {
    var occ := Occ(s, norb);
    if x in RemoveEach(s, occ) {
      var k :| 0 <= k < |occ| && RemoveEach(s, occ)[k] == x;
      Member(occ, k);
    }
    if RemovesOne(s, norb, x) {
      var i: nat :| i < norb && Bit(s, i) && x == Toggle(s, i);
      var k :| 0 <= k < |occ| && occ[k] == i;
      assert RemoveEach(s, occ)[k] == x;
    }
  }

  lemma {:induction false} AllRemovalsSpec(strs: seq<nat>, norb: nat, x: nat)
    ensures x in AllRemovals(strs, norb) <==> IsRemoval(strs, norb, x)
    decreases |strs|
  {
    if |strs| > 0 {
      var n := |strs| - 1;
      var pre := strs[..n];
      var here := RemoveEach(strs[n], Occ(strs[n], norb));
      assert AllRemovals(strs, norb) == AllRemovals(pre, norb) + here;
      AllRemovalsSpec(pre, norb, x);
      RemoveEachSpec(strs[n], norb, x);
      if x in AllRemovals(pre, norb) {
        var k :| 0 <= k < n && RemovesOne(pre[k], norb, x);
        assert pre[k] == strs[k];
        assert 0 <= k < |strs| && RemovesOne(strs[k], norb, x);
      } else if x in here {
        assert 0 <= n < |strs| && RemovesOne(strs[n], norb, x);
      }
      if IsRemoval(strs, norb, x) {
        var k :| 0 <= k < |strs| && RemovesOne(strs[k], norb, x);
        if k < n {
          assert pre[k] == strs[k];
          assert IsRemoval(pre, norb, x);
        } else {
          assert k == n;
          assert RemovesOne(strs[n], norb, x);
          assert x in here;
        }
      }
    }
  }

  /**
   * The intermediates of `gen_des_linkstr` are strictly increasing and are
   * exactly the strings obtained from a string of the space by emptying one
   * occupied orbital.
   */
  lemma DesInterSpec(strs: seq<nat>, norb: nat)
    ensures StrictlySorted(DesInter(strs, norb))
    ensures forall x :: x in DesInter(strs, norb) <==> IsRemoval(strs, norb, x)
  {
    forall x ensures x in DesInter(strs, norb) <==> IsRemoval(strs, norb, x) {
      AllRemovalsSpec(strs, norb, x);
    }
  }

  /** Every intermediate of `gen_des_linkstr` lies in the orbital window and carries one electron fewer. */
  lemma DesInterValid(strs: seq<nat>, norb: nat, nelec: nat, x: nat)
    requires ValidSpace(strs, norb, nelec) && x in DesInter(strs, norb)
    ensures nelec >= 1 && x < Pow2(norb) && |Occ(x, norb)| == nelec - 1
  {
    DesInterSpec(strs, norb);
    var k :| 0 <= k < |strs| && RemovesOne(strs[k], norb, x);
    var s := strs[k];
    var i: nat :| i < norb && Bit(s, i) && x == Toggle(s, i);
    assert ValidString(s, norb, nelec);
    ToggleCount(s, i, norb);
    ToggleBound(s, i, norb);
  }

  // ---- rows of gen_des_linkstr ----

  /** Creations on `str1`, over the empty orbitals `vir` in order, that reach a string of the space, as `(0, i, addr, sign)`. */
  function CreateEach(strs: seq<nat>, str1: nat, vir: seq<nat>): (r: seq<Entry>)
    ensures |r| <= |vir|
    decreases |vir|
  {
    if |vir| == 0 then []
    else
      var i := vir[0];
      var rest := CreateEach(strs, str1, vir[1..]);
      match Lookup(strs, SetBit(str1, i))
      case Some(d) => [Entry(0, i, d, CreSign(i, str1))] + rest
      case None => rest
  }

  /** The entries are exactly those of the orbitals of `vir` whose target has an address. */
  lemma {:induction false} CreateEachSpec(strs: seq<nat>, str1: nat, vir: seq<nat>, e: Entry)
    ensures e in CreateEach(strs, str1, vir) <==>
      e.p == 0 && e.q in vir && Lookup(strs, SetBit(str1, e.q)) == Some(e.dest) &&
      e.sign == CreSign(e.q, str1)
    decreases |vir|
  {
    if |vir| > 0 {
      var i := vir[0];
      var rest := CreateEach(strs, str1, vir[1..]);
      CreateEachSpec(strs, str1, vir[1..], e);
      assert vir == [i] + vir[1..];
      match Lookup(strs, SetBit(str1, i))
      case Some(d) =>
        assert CreateEach(strs, str1, vir) == [Entry(0, i, d, CreSign(i, str1))] + rest;
      case None =>
        assert CreateEach(strs, str1, vir) == rest;
    }
  }

  /** Row width `norb - nelec + 1`. */
  function DesWidth(norb: nat, nelec: nat): nat
    requires nelec <= norb
  {
    norb - nelec + 1
  }

  function DesRow(strs: seq<nat>, norb: nat, nelec: nat, x: nat): (r: Row)
    requires ValidSpace(strs, norb, nelec) && x in DesInter(strs, norb)
    ensures |r.slots| == DesWidth(norb, nelec) && r.count <= |r.slots|
    ensures Padded([r], DesWidth(norb, nelec)) && Valid(r) == CreateEach(strs, x, Vir(x, norb))
  {
    DesInterValid(strs, norb, nelec, x);
    OccVirCount(x, norb);
    MakeRow(CreateEach(strs, x, Vir(x, norb)), DesWidth(norb, nelec))
  }

  /**
   * `gen_des_linkstr(strs, norb, nelec)`: `None` when there are no electrons
   * to remove, otherwise one row per intermediate.
   */
  function GenDesLinkstr(strs: seq<nat>, norb: nat, nelec: nat): (t: Option<seq<Row>>)
    requires ValidSpace(strs, norb, nelec)
    ensures t.None? <==> nelec < 1
    ensures t.Some? ==> |t.value| == |DesInter(strs, norb)| && Padded(t.value, DesWidth(norb, nelec))
  {
    if nelec < 1 then None
    else
      var inter := DesInter(strs, norb);
      var t := seq(|inter|, r requires 0 <= r < |inter| => DesRow(strs, norb, nelec, inter[r]));
      assert forall r :: 0 <= r < |t| ==> [t[r]][0] == t[r];
      Some(t)
  }

  /**
   * The valid entries of the row of intermediate `str1` are exactly the
   * creations `(0, i, dest, sign)` of an empty orbital `i` that reach a
   * string of the space, with its address and a sign of +1 or -1.
   */
  lemma GenDesEntries(strs: seq<nat>, norb: nat, nelec: nat, r: nat)
    requires ValidSpace(strs, norb, nelec) && 1 <= nelec
    requires r < |DesInter(strs, norb)|
    ensures var row := GenDesLinkstr(strs, norb, nelec).value[r];
      var str1 := DesInter(strs, norb)[r];
      row.count <= |row.slots| &&
      (forall e :: e in row.slots[..row.count] <==>
        e.p == 0 && e.q < norb && !Bit(str1, e.q) &&
        Lookup(strs, SetBit(str1, e.q)) == Some(e.dest) && e.sign == CreSign(e.q, str1)) &&
      (forall e :: e in row.slots[..row.count] ==> e.sign == 1 || e.sign == -1)
  {
    var x := DesInter(strs, norb)[r];
    var row := GenDesLinkstr(strs, norb, nelec).value[r];
    assert row == DesRow(strs, norb, nelec, x);
    forall e {
      CreateEachSpec(strs, x, Vir(x, norb), e);
    }
  }

  /** The orbitals the entries of a row act on strictly increase. */
  lemma GenDesAscending(strs: seq<nat>, norb: nat, nelec: nat, r: nat)
    requires ValidSpace(strs, norb, nelec) && 1 <= nelec
    requires r < |DesInter(strs, norb)|
    ensures var row := GenDesLinkstr(strs, norb, nelec).value[r];
      row.count <= |row.slots| && StrictlySorted(QOrbitals(row.slots[..row.count]))
  {
    var x := DesInter(strs, norb)[r];
    var row := GenDesLinkstr(strs, norb, nelec).value[r];
    assert row == DesRow(strs, norb, nelec, x);
    CreateEachAscending(strs, x, Vir(x, norb));
  }

  /** The second orbitals of the entries. */
  function QOrbitals(r: seq<Entry>): seq<nat>
  {
    seq(|r|, k requires 0 <= k < |r| => r[k].q)
  }

  /** Prepending an entry below every created orbital keeps them ascending. */
  lemma ConsAscendingQ(e: Entry, rest: seq<Entry>)
    requires StrictlySorted(QOrbitals(rest)) && forall y :: y in QOrbitals(rest) ==> e.q < y
    ensures StrictlySorted(QOrbitals([e] + rest))
  {
    ConsSorted(e.q, QOrbitals(rest));
    assert QOrbitals([e] + rest) == [e.q] + QOrbitals(rest);
  }

  lemma CreatedAbove(strs: seq<nat>, str1: nat, vir: seq<nat>)
    requires StrictlySorted(vir) && |vir| > 0
    ensures forall y :: y in QOrbitals(CreateEach(strs, str1, vir[1..])) ==> vir[0] < y
  {
    var rest := CreateEach(strs, str1, vir[1..]);
    forall y | y in QOrbitals(rest)
      ensures vir[0] < y
    {
      var k :| 0 <= k < |rest| && QOrbitals(rest)[k] == y;
      CreateEachSpec(strs, str1, vir[1..], rest[k]);
      SortedTail(vir, y);
    }
  }

  lemma {:induction false} CreateEachAscending(strs: seq<nat>, str1: nat, vir: seq<nat>)
    requires StrictlySorted(vir)
    ensures StrictlySorted(QOrbitals(CreateEach(strs, str1, vir)))
    decreases |vir|
  {
    if |vir| > 0 {
      var i := vir[0];
      var rest := CreateEach(strs, str1, vir[1..]);
      SortedTail(vir, 0);
      CreateEachAscending(strs, str1, vir[1..]);
      match Lookup(strs, SetBit(str1, i))
      case Some(d) =>
        var e := Entry(0, i, d, CreSign(i, str1));
        assert CreateEach(strs, str1, vir) == [e] + rest;
        CreatedAbove(strs, str1, vir);
        ConsAscendingQ(e, rest);
      case None =>
        assert CreateEach(strs, str1, vir) == rest;
    }
  }

  /**
   * Completeness: emptying any occupied orbital `i` of any string of the
   * space gives an intermediate whose row holds the creation of `i`, and
   * that entry leads back to the string's address.
   */
  lemma GenDesReaches(strs: seq<nat>, norb: nat, nelec: nat, k: nat, i: nat)
    requires ValidSpace(strs, norb, nelec) && 1 <= nelec
    requires k < |strs| && i < norb && Bit(strs[k], i)
    ensures var inter := DesInter(strs, norb);
      exists r :: 0 <= r < |inter| && inter[r] == Toggle(strs[k], i) &&
        var row := GenDesLinkstr(strs, norb, nelec).value[r];
        row.count <= |row.slots| &&
        exists d: nat :: d < |strs| && Entry(0, i, d, CreSign(i, inter[r])) in row.slots[..row.count] && strs[d] == strs[k]
  {
    var s := strs[k];
    var x := Toggle(s, i);
    var inter := DesInter(strs, norb);
    DesInterSpec(strs, norb);
    assert RemovesOne(s, norb, x);
    assert IsRemoval(strs, norb, x);
    var r :| 0 <= r < |inter| && inter[r] == x;
    RestoreBit(s, i);
    ToggleBit(s, i, i);
    GenDesEntries(strs, norb, nelec, r);
    var d := Lookup(strs, s).value;
    var row := GenDesLinkstr(strs, norb, nelec).value[r];
    assert Entry(0, i, d, CreSign(i, x)) in row.slots[..row.count];
  }

  // ---- intermediates of gen_cre_linkstr ----

  /** `s` with each of its empty orbitals filled in turn. */
  function AddEach(s: nat, vir: seq<nat>): seq<nat>
  {
    seq(|vir|, k requires 0 <= k < |vir| => SetBit(s, vir[k]))
  }

  /** Single additions over the whole space, in the order the source collects them. */
  function AllAdditions(strs: seq<nat>, norb: nat): seq<nat>
    decreases |strs|
  {
    if |strs| == 0 then []
    else
      var n := |strs| - 1;
      AllAdditions(strs[..n], norb) + AddEach(strs[n], Vir(strs[n], norb))
  }

  /** The single additions over the whole space, deduplicated and sorted. */
  function CreInter(strs: seq<nat>, norb: nat): seq<nat>
  {
    SortDedup(AllAdditions(strs, norb))
  }

  /** `x` is `s` with one empty orbital below `norb` filled. */
  ghost predicate AddsOne(s: nat, norb: nat, x: nat)
  {
    exists i: nat :: i < norb && !Bit(s, i) && x == SetBit(s, i)
  }

  /** `x` is a string of the space with one empty orbital filled. */
  ghost predicate IsAddition(strs: seq<nat>, norb: nat, x: nat)
  {
    exists k :: 0 <= k < |strs| && AddsOne(strs[k], norb, x)
  }

  lemma AddEachSpec(s: nat, norb: nat, x: nat)
    ensures x in AddEach(s, Vir(s, norb)) <==> AddsOne(s, norb, x)
  {
    var vir := Vir(s, norb);
    if x in AddEach(s, vir) {
      var k :| 0 <= k < |vir| && AddEach(s, vir)[k] == x;
      Member(vir, k);
    }
    if AddsOne(s, norb, x) {
      var i: nat :| i < norb && !Bit(s, i) && x == SetBit(s, i);
      var k :| 0 <= k < |vir| && vir[k] == i;
      assert AddEach(s, vir)[k] == x;
    }
  }

  lemma {:induction false} AllAdditionsSpec(strs: seq<nat>, norb: nat, x: nat)
    ensures x in AllAdditions(strs, norb) <==> IsAddition(strs, norb, x)
    decreases |strs|
  {
    if |strs| > 0 {
      var n := |strs| - 1;
      var pre := strs[..n];
      var here := AddEach(strs[n], Vir(strs[n], norb));
      assert AllAdditions(strs, norb) == AllAdditions(pre, norb) + here;
      AllAdditionsSpec(pre, norb, x);
      AddEachSpec(strs[n], norb, x);
      if x in AllAdditions(pre, norb) {
        var k :| 0 <= k < n && AddsOne(pre[k], norb, x);
        assert pre[k] == strs[k];
        assert 0 <= k < |strs| && AddsOne(strs[k], norb, x);
      } else if x in here {
        assert 0 <= n < |strs| && AddsOne(strs[n], norb, x);
      }
      if IsAddition(strs, norb, x) {
        var k :| 0 <= k < |strs| && AddsOne(strs[k], norb, x);
        if k < n {
          assert pre[k] == strs[k];
          assert IsAddition(pre, norb, x);
        } else {
          assert k == n;
          assert AddsOne(strs[n], norb, x);
          assert x in here;
        }
      }
    }
  }

  /**
   * The intermediates of `gen_cre_linkstr` are strictly increasing and are
   * exactly the strings obtained from a string of the space by filling one
   * empty orbital.
   */
  lemma CreInterSpec(strs: seq<nat>, norb: nat)
    ensures StrictlySorted(CreInter(strs, norb))
    ensures forall x :: x in CreInter(strs, norb) <==> IsAddition(strs, norb, x)
  {
    forall x ensures x in CreInter(strs, norb) <==> IsAddition(strs, norb, x) {
      AllAdditionsSpec(strs, norb, x);
    }
  }

  /** Every intermediate of `gen_cre_linkstr` lies in the orbital window and carries one electron more. */
  lemma CreInterValid(strs: seq<nat>, norb: nat, nelec: nat, x: nat)
    requires ValidSpace(strs, norb, nelec) && x in CreInter(strs, norb)
    ensures nelec < norb && x < Pow2(norb) && |Occ(x, norb)| == nelec + 1
  {
    CreInterSpec(strs, norb);
    var k :| 0 <= k < |strs| && AddsOne(strs[k], norb, x);
    var s := strs[k];
    var i: nat :| i < norb && !Bit(s, i) && x == SetBit(s, i);
    assert ValidString(s, norb, nelec);
    ToggleCount(s, i, norb);
    ToggleBound(s, i, norb);
    OccVirCount(x, norb);
  }

  // ---- rows of gen_cre_linkstr ----

  /** Annihilations on `str1`, over the occupied orbitals `occ` in order, that reach a string of the space, as `(i, 0, addr, sign)`. */
  function AnnihilateEach(strs: seq<nat>, str1: nat, occ: seq<nat>): (r: seq<Entry>)
    ensures |r| <= |occ|
    decreases |occ|
  {
    if |occ| == 0 then []
    else
      var i := occ[0];
      var rest := AnnihilateEach(strs, str1, occ[1..]);
      match Lookup(strs, Toggle(str1, i))
      case Some(d) => [Entry(i, 0, d, DesSign(i, str1))] + rest
      case None => rest
  }

  /** The entries are exactly those of the orbitals of `occ` whose target has an address. */
  lemma {:induction false} AnnihilateEachSpec(strs: seq<nat>, str1: nat, occ: seq<nat>, e: Entry)
    ensures e in AnnihilateEach(strs, str1, occ) <==>
      e.q == 0 && e.p in occ && Lookup(strs, Toggle(str1, e.p)) == Some(e.dest) &&
      e.sign == DesSign(e.p, str1)
    decreases |occ|
  {
    if |occ| > 0 {
      var i := occ[0];
      var rest := AnnihilateEach(strs, str1, occ[1..]);
      AnnihilateEachSpec(strs, str1, occ[1..], e);
      assert occ == [i] + occ[1..];
      match Lookup(strs, Toggle(str1, i))
      case Some(d) =>
        assert AnnihilateEach(strs, str1, occ) == [Entry(i, 0, d, DesSign(i, str1))] + rest;
      case None =>
        assert AnnihilateEach(strs, str1, occ) == rest;
    }
  }

  /** Row width `nelec + 1`. */
  function CreWidth(nelec: nat): nat
  {
    nelec + 1
  }

  function CreRow(strs: seq<nat>, norb: nat, nelec: nat, x: nat): (r: Row)
    requires ValidSpace(strs, norb, nelec) && x in CreInter(strs, norb)
    ensures |r.slots| == CreWidth(nelec) && r.count <= |r.slots|
    ensures Padded([r], CreWidth(nelec)) && Valid(r) == AnnihilateEach(strs, x, Occ(x, norb))
  {
    CreInterValid(strs, norb, nelec, x);
    MakeRow(AnnihilateEach(strs, x, Occ(x, norb)), CreWidth(nelec))
  }

  /**
   * `gen_cre_linkstr(strs, norb, nelec)`: `None` when every orbital is
   * already occupied, otherwise one row per intermediate.
   */
  function GenCreLinkstr(strs: seq<nat>, norb: nat, nelec: nat): (t: Option<seq<Row>>)
    requires ValidSpace(strs, norb, nelec)
    ensures t.None? <==> nelec == norb
    ensures t.Some? ==> |t.value| == |CreInter(strs, norb)| && Padded(t.value, CreWidth(nelec))
  {
    if nelec == norb then None
    else
      var inter := CreInter(strs, norb);
      var t := seq(|inter|, r requires 0 <= r < |inter| => CreRow(strs, norb, nelec, inter[r]));
      assert forall r :: 0 <= r < |t| ==> [t[r]][0] == t[r];
      Some(t)
  }

  /** The first orbitals of the entries. */
  function POrbitals(r: seq<Entry>): seq<nat>
  {
    seq(|r|, k requires 0 <= k < |r| => r[k].p)
  }

  /** Prepending an entry below every annihilated orbital keeps them ascending. */
  lemma ConsAscendingP(e: Entry, rest: seq<Entry>)
    requires StrictlySorted(POrbitals(rest)) && forall y :: y in POrbitals(rest) ==> e.p < y
    ensures StrictlySorted(POrbitals([e] + rest))
  {
    ConsSorted(e.p, POrbitals(rest));
    assert POrbitals([e] + rest) == [e.p] + POrbitals(rest);
  }

  lemma AnnihilatedAbove(strs: seq<nat>, str1: nat, occ: seq<nat>)
    requires StrictlySorted(occ) && |occ| > 0
    ensures forall y :: y in POrbitals(AnnihilateEach(strs, str1, occ[1..])) ==> occ[0] < y
  {
    var rest := AnnihilateEach(strs, str1, occ[1..]);
    forall y | y in POrbitals(rest)
      ensures occ[0] < y
    {
      var k :| 0 <= k < |rest| && POrbitals(rest)[k] == y;
      AnnihilateEachSpec(strs, str1, occ[1..], rest[k]);
      SortedTail(occ, y);
    }
  }

  lemma {:induction false} AnnihilateEachAscending(strs: seq<nat>, str1: nat, occ: seq<nat>)
    requires StrictlySorted(occ)
    ensures StrictlySorted(POrbitals(AnnihilateEach(strs, str1, occ)))
    decreases |occ|
  {
    if |occ| > 0 {
      var i := occ[0];
      var rest := AnnihilateEach(strs, str1, occ[1..]);
      SortedTail(occ, 0);
      AnnihilateEachAscending(strs, str1, occ[1..]);
      match Lookup(strs, Toggle(str1, i))
      case Some(d) =>
        var e := Entry(i, 0, d, DesSign(i, str1));
        assert AnnihilateEach(strs, str1, occ) == [e] + rest;
        AnnihilatedAbove(strs, str1, occ);
        ConsAscendingP(e, rest);
      case None =>
        assert AnnihilateEach(strs, str1, occ) == rest;
    }
  }

  /**
   * The valid entries of the row of intermediate `str1` are exactly the
   * annihilations `(i, 0, dest, sign)` of an occupied orbital `i` that reach
   * a string of the space, with its address and a sign of +1 or -1.
   */
  lemma GenCreEntries(strs: seq<nat>, norb: nat, nelec: nat, r: nat)
    requires ValidSpace(strs, norb, nelec) && nelec < norb
    requires r < |CreInter(strs, norb)|
    ensures var row := GenCreLinkstr(strs, norb, nelec).value[r];
      var str1 := CreInter(strs, norb)[r];
      row.count <= |row.slots| &&
      (forall e :: e in row.slots[..row.count] <==>
        e.q == 0 && e.p < norb && Bit(str1, e.p) &&
        Lookup(strs, Toggle(str1, e.p)) == Some(e.dest) && e.sign == DesSign(e.p, str1)) &&
      (forall e :: e in row.slots[..row.count] ==> e.sign == 1 || e.sign == -1)
  {
    var x := CreInter(strs, norb)[r];
    var row := GenCreLinkstr(strs, norb, nelec).value[r];
    assert row == CreRow(strs, norb, nelec, x);
    forall e {
      AnnihilateEachSpec(strs, x, Occ(x, norb), e);
    }
  }

  /** The orbitals the entries of a row act on strictly increase. */
  lemma GenCreAscending(strs: seq<nat>, norb: nat, nelec: nat, r: nat)
    requires ValidSpace(strs, norb, nelec) && nelec < norb
    requires r < |CreInter(strs, norb)|
    ensures var row := GenCreLinkstr(strs, norb, nelec).value[r];
      row.count <= |row.slots| && StrictlySorted(POrbitals(row.slots[..row.count]))
  {
    var x := CreInter(strs, norb)[r];
    var row := GenCreLinkstr(strs, norb, nelec).value[r];
    assert row == CreRow(strs, norb, nelec, x);
    AnnihilateEachAscending(strs, x, Occ(x, norb));
  }

  /**
   * Completeness: filling any empty orbital `i` of any string of the space
   * gives an intermediate whose row holds the annihilation of `i`, and that
   * entry leads back to the string's address.
   */
  lemma GenCreReaches(strs: seq<nat>, norb: nat, nelec: nat, k: nat, i: nat)
    requires ValidSpace(strs, norb, nelec) && nelec < norb
    requires k < |strs| && i < norb && !Bit(strs[k], i)
    ensures var inter := CreInter(strs, norb);
      exists r :: 0 <= r < |inter| && inter[r] == SetBit(strs[k], i) &&
        var row := GenCreLinkstr(strs, norb, nelec).value[r];
        row.count <= |row.slots| &&
        exists d: nat :: d < |strs| && Entry(i, 0, d, DesSign(i, inter[r])) in row.slots[..row.count] && strs[d] == strs[k]
  {
    var s := strs[k];
    var x := SetBit(s, i);
    var inter := CreInter(strs, norb);
    CreInterSpec(strs, norb);
    assert AddsOne(s, norb, x);
    assert IsAddition(strs, norb, x);
    var r :| 0 <= r < |inter| && inter[r] == x;
    RestoreBit(s, i);
    SetBitBit(s, i, i);
    GenCreEntries(strs, norb, nelec, r);
    var d := Lookup(strs, s).value;
    var row := GenCreLinkstr(strs, norb, nelec).value[r];
    assert Entry(i, 0, d, DesSign(i, x)) in row.slots[..row.count];
  }
}
