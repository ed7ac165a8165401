/**
 * `select_strs`: the strings one or two excitations away from the current
 * space whose estimated contribution passes the selection cutoff. For each
 * string `s` with largest amplitude `ca`, an excitation `i -> a` is kept
 * when `eri_pq_max[a,i] * ca` exceeds the cutoff; when moreover `i < nelec`
 * and `a >= nelec`, the excitation is extended by a second one `j -> b`
 * (`j` occupied below `i`, `b` empty above `a`) kept when
 * `|eri[a,i,b,j]| * ca` exceeds the cutoff. The proposals not already in the
 * space are returned sorted and without repeats.
 */
module Select {
  import opened Sorted
  import opened Bits
  import opened Space

  /** The integrals and the cutoff the selector reads: `eri[a,i,b,j]`, `eri_pq_max[a,i]`, `myci.select_cutoff`. */
  datatype Criteria = Criteria(eri: (nat, nat, nat, nat) -> real, eriPqMax: (nat, nat) -> real, cutoff: real)

  function Abs(x: real): real
  {
    if x < 0.0 then -x else x
  }

  /** A single excitation `i -> a` is kept when its largest integral times `ca` exceeds the cutoff. */
  predicate SingleGate(c: Criteria, ca: real, a: nat, i: nat)
  {
    c.eriPqMax(a, i) * ca > c.cutoff
  }

  /** A double excitation is kept when its integral's magnitude times `ca` exceeds the cutoff. */
  predicate DoubleGate(c: Criteria, ca: real, a: nat, i: nat, b: nat, j: nat)
  {
    Abs(c.eri(a, i, b, j)) * ca > c.cutoff
  }

  // ---- the loops of select_strs ----

  /** For one `j`: the second excitations `j -> b` of `s1`, over `bs` in order, that pass the double gate. */
  function DoublesWith(c: Criteria, s1: nat, ca: real, a: nat, i: nat, j: nat, bs: seq<nat>): seq<nat>
    decreases |bs|
  {
    if |bs| == 0 then []
    else
      var b := bs[0];
      (if DoubleGate(c, ca, a, i, b, j) then [Excite(s1, j, b)] else []) + DoublesWith(c, s1, ca, a, i, j, bs[1..])
  }

  /** The kept second excitations of `s1`, `j` outer and `b` inner. */
  function Doubles(c: Criteria, s1: nat, ca: real, a: nat, i: nat, js: seq<nat>, bs: seq<nat>): seq<nat>
    decreases |js|
  {
    if |js| == 0 then []
    else DoublesWith(c, s1, ca, a, i, js[0], bs) + Doubles(c, s1, ca, a, i, js[1..], bs)
  }

  /** The body of the inner loop for the pair `(i, a)`; `js` are the occupied orbitals before `i` and `bs` the empty orbitals after `a`. */
  function Step(c: Criteria, nelec: nat, s: nat, ca: real, i: nat, js: seq<nat>, a: nat, bs: seq<nat>): seq<nat>
  {
    if SingleGate(c, ca, a, i) then
      var s1 := Excite(s, i, a);
      [s1] + (if i < nelec && a >= nelec then Doubles(c, s1, ca, a, i, js, bs) else [])
    else []
  }

  /** The inner loop over the empty orbitals, cut after the first `m`. */
  function ForVir(c: Criteria, nelec: nat, s: nat, ca: real, i: nat, js: seq<nat>, vir: seq<nat>, m: nat): seq<nat>
    requires m <= |vir|
  {
    if m == 0 then []
    else ForVir(c, nelec, s, ca, i, js, vir, m - 1) + Step(c, nelec, s, ca, i, js, vir[m - 1], vir[m..])
  }

  /** The outer loop over the occupied orbitals, cut after the first `n`. */
  function ForOcc(c: Criteria, nelec: nat, s: nat, ca: real, occ: seq<nat>, vir: seq<nat>, n: nat): seq<nat>
    requires n <= |occ|
  {
    if n == 0 then []
    else ForOcc(c, nelec, s, ca, occ, vir, n - 1) + ForVir(c, nelec, s, ca, occ[n - 1], occ[..n - 1], vir, |vir|)
  }

  /** Everything the selector appends for string `s` with largest amplitude `ca`. */
  function Proposals(c: Criteria, nelec: nat, s: nat, ca: real, norb: nat): seq<nat>
  {
    var occ := Occ(s, norb);
    ForOcc(c, nelec, s, ca, occ, Vir(s, norb), |occ|)
  }

  /** `strs_add` after the outer loop over the space (`ca = civec_max[ia]`). */
  function AllProposals(c: Criteria, civecMax: seq<real>, strs: seq<nat>, norb: nat, nelec: nat): seq<nat>
    requires |strs| <= |civecMax|
    decreases |strs|
  {
    if |strs| == 0 then []
    else
      var n := |strs| - 1;
      AllProposals(c, civecMax, strs[..n], norb, nelec) + Proposals(c, nelec, strs[n], civecMax[n], norb)
  }

  /** `select_strs`: the proposed strings not already in the space, deduplicated and sorted. */
  function SelectStrs(c: Criteria, civecMax: seq<real>, strs: seq<nat>, norb: nat, nelec: nat): (r: seq<nat>)
    requires |strs| <= |civecMax|
    ensures StrictlySorted(r)
    ensures forall x :: x in r ==> x !in strs
  {
    SortDedup(Without(AllProposals(c, civecMax, strs, norb, nelec), strs))
  }

  // ---- what the selector proposes ----

  /** `x` is `Excite(s, i, a)` followed by a kept second excitation `j -> b` with `j < i` occupied and `b > a` empty. */
  ghost predicate DoubleFrom(c: Criteria, s: nat, ca: real, norb: nat, i: nat, a: nat, x: nat)
  {
    exists j: nat, b: nat :: j in Occ(s, norb) && j < i && b in Vir(s, norb) && a < b &&
      DoubleGate(c, ca, a, i, b, j) && x == Excite(Excite(s, i, a), j, b)
  }

  /** `x` comes out of the pair `(i, a)`: the single excitation, or a double one when `i < nelec <= a`. */
  ghost predicate StepYields(c: Criteria, nelec: nat, s: nat, ca: real, norb: nat, i: nat, a: nat, x: nat)
  {
    SingleGate(c, ca, a, i) &&
    (x == Excite(s, i, a) || (i < nelec <= a && DoubleFrom(c, s, ca, norb, i, a, x)))
  }

  /** `x` is proposed for string `s`: it comes out of some occupied `i` and empty `a` of `s`. */
  ghost predicate Proposed(c: Criteria, nelec: nat, s: nat, ca: real, norb: nat, x: nat)
  {
    exists i: nat, a: nat :: i in Occ(s, norb) && a in Vir(s, norb) && StepYields(c, nelec, s, ca, norb, i, a, x)
  }

  /** `x` is proposed for some string of the space. */
  ghost predicate ProposedBy(c: Criteria, civecMax: seq<real>, strs: seq<nat>, norb: nat, nelec: nat, x: nat)
  {
    exists k :: ProposedAt(c, civecMax, strs, norb, nelec, k, x)
  }

  /** `x` is proposed for the string at position `k`, whose amplitude bound is `civecMax[k]`. */
  ghost predicate ProposedAt(c: Criteria, civecMax: seq<real>, strs: seq<nat>, norb: nat, nelec: nat, k: int, x: nat)
  {
    0 <= k < |strs| && k < |civecMax| && Proposed(c, nelec, strs[k], civecMax[k], norb, x)
  }

  // ---- loop lemmas ----

  lemma {:induction false} DoublesWithSpec(c: Criteria, s1: nat, ca: real, a: nat, i: nat, j: nat, bs: seq<nat>, x: nat)
    ensures x in DoublesWith(c, s1, ca, a, i, j, bs) <==>
      exists b :: b in bs && DoubleGate(c, ca, a, i, b, j) && x == Excite(s1, j, b)
    decreases |bs|
  {
    if |bs| > 0 {
      DoublesWithSpec(c, s1, ca, a, i, j, bs[1..], x);
      assert bs == [bs[0]] + bs[1..];
    }
  }

  lemma {:induction false} DoublesSpec(c: Criteria, s1: nat, ca: real, a: nat, i: nat, js: seq<nat>, bs: seq<nat>, x: nat)
    ensures x in Doubles(c, s1, ca, a, i, js, bs) <==>
      exists j, b :: j in js && b in bs && DoubleGate(c, ca, a, i, b, j) && x == Excite(s1, j, b)
    decreases |js|
  {
    if |js| > 0 {
      var j := js[0];
      var here := DoublesWith(c, s1, ca, a, i, j, bs);
      var rest := Doubles(c, s1, ca, a, i, js[1..], bs);
      assert Doubles(c, s1, ca, a, i, js, bs) == here + rest;
      DoublesWithSpec(c, s1, ca, a, i, j, bs, x);
      DoublesSpec(c, s1, ca, a, i, js[1..], bs, x);
      if exists j2, b :: j2 in js && b in bs && DoubleGate(c, ca, a, i, b, j2) && x == Excite(s1, j2, b) {
        var j2, b :| j2 in js && b in bs && DoubleGate(c, ca, a, i, b, j2) && x == Excite(s1, j2, b);
        if j2 == j {
          assert x in here;
        } else {
          assert j2 in js[1..];
        }
      }
      if x in rest {
        var j2, b :| j2 in js[1..] && b in bs && DoubleGate(c, ca, a, i, b, j2) && x == Excite(s1, j2, b);
        assert j2 in js;
      }
    }
  }

  /** `x` comes out of the inner-loop pass for virtual position `a1`. */
  ghost predicate InStep(c: Criteria, nelec: nat, s: nat, ca: real, i: nat, js: seq<nat>, vir: seq<nat>, a1: int, x: nat)
  {
    0 <= a1 < |vir| && x in Step(c, nelec, s, ca, i, js, vir[a1], vir[a1 + 1..])
  }

  /** `x` comes out of the outer-loop pass for occupied position `i1`. */
  ghost predicate InForVir(c: Criteria, nelec: nat, s: nat, ca: real, occ: seq<nat>, vir: seq<nat>, i1: int, x: nat)
  {
    0 <= i1 < |occ| && x in ForVir(c, nelec, s, ca, occ[i1], occ[..i1], vir, |vir|)
  }

  lemma {:induction false} ForVirSpec(c: Criteria, nelec: nat, s: nat, ca: real, i: nat, js: seq<nat>, vir: seq<nat>, m: nat, x: nat)
    requires m <= |vir|
    ensures x in ForVir(c, nelec, s, ca, i, js, vir, m) <==>
      exists a1 :: 0 <= a1 < m && InStep(c, nelec, s, ca, i, js, vir, a1, x)
  {
    if m > 0 {
      ForVirSpec(c, nelec, s, ca, i, js, vir, m - 1, x);
      assert ForVir(c, nelec, s, ca, i, js, vir, m) ==
        ForVir(c, nelec, s, ca, i, js, vir, m - 1) + Step(c, nelec, s, ca, i, js, vir[m - 1], vir[m..]);
      var here := Step(c, nelec, s, ca, i, js, vir[m - 1], vir[m..]);
      if x in here {
        assert InStep(c, nelec, s, ca, i, js, vir, m - 1, x);
      }
      if exists a1 :: 0 <= a1 < m && InStep(c, nelec, s, ca, i, js, vir, a1, x) {
        var a1 :| 0 <= a1 < m && InStep(c, nelec, s, ca, i, js, vir, a1, x);
        if a1 == m - 1 {
          assert x in here;
        }
      }
    }
  }

  lemma {:induction false} ForOccSource(c: Criteria, nelec: nat, s: nat, ca: real, occ: seq<nat>, vir: seq<nat>, n: nat, x: nat)
    requires n <= |occ| && x in ForOcc(c, nelec, s, ca, occ, vir, n)
    ensures exists i1 :: 0 <= i1 < n && InForVir(c, nelec, s, ca, occ, vir, i1, x)
    decreases n
  {
    var here := ForVir(c, nelec, s, ca, occ[n - 1], occ[..n - 1], vir, |vir|);
    assert ForOcc(c, nelec, s, ca, occ, vir, n) == ForOcc(c, nelec, s, ca, occ, vir, n - 1) + here;
    if x in here {
      assert InForVir(c, nelec, s, ca, occ, vir, n - 1, x);
    } else {
      ForOccSource(c, nelec, s, ca, occ, vir, n - 1, x);
    }
  }

  lemma {:induction false} ForOccCollects(c: Criteria, nelec: nat, s: nat, ca: real, occ: seq<nat>, vir: seq<nat>, n: nat, i1: nat, x: nat)
    requires i1 < n <= |occ| && InForVir(c, nelec, s, ca, occ, vir, i1, x)
    ensures x in ForOcc(c, nelec, s, ca, occ, vir, n)
    decreases n
  {
    var here := ForVir(c, nelec, s, ca, occ[n - 1], occ[..n - 1], vir, |vir|);
    assert ForOcc(c, nelec, s, ca, occ, vir, n) == ForOcc(c, nelec, s, ca, occ, vir, n - 1) + here;
    if i1 == n - 1 {
      assert x in here;
    } else {
      ForOccCollects(c, nelec, s, ca, occ, vir, n - 1, i1, x);
    }
  }

  lemma ForOccSpec(c: Criteria, nelec: nat, s: nat, ca: real, occ: seq<nat>, vir: seq<nat>, n: nat, x: nat)
    requires n <= |occ|
    ensures x in ForOcc(c, nelec, s, ca, occ, vir, n) <==>
      exists i1 :: 0 <= i1 < n && InForVir(c, nelec, s, ca, occ, vir, i1, x)
  {
    if x in ForOcc(c, nelec, s, ca, occ, vir, n) {
      ForOccSource(c, nelec, s, ca, occ, vir, n, x);
    }
    if exists i1 :: 0 <= i1 < n && InForVir(c, nelec, s, ca, occ, vir, i1, x) {
      var i1 :| 0 <= i1 < n && InForVir(c, nelec, s, ca, occ, vir, i1, x);
      ForOccCollects(c, nelec, s, ca, occ, vir, n, i1, x);
    }
  }

  /** The doubles of the pass for `(occ[i1], vir[a1])` are exactly those `DoubleFrom` describes. */
  lemma DoublesOfStep(c: Criteria, s: nat, ca: real, norb: nat, i1: nat, a1: nat, x: nat)
    requires i1 < |Occ(s, norb)| && a1 < |Vir(s, norb)|
    ensures var occ := Occ(s, norb);
      var vir := Vir(s, norb);
      var i := occ[i1];
      var a := vir[a1];
      x in Doubles(c, Excite(s, i, a), ca, a, i, occ[..i1], vir[a1 + 1..]) <==> DoubleFrom(c, s, ca, norb, i, a, x)
  {
    var occ := Occ(s, norb);
    var vir := Vir(s, norb);
    var i := occ[i1];
    var a := vir[a1];
    var s1 := Excite(s, i, a);
    DoublesSpec(c, s1, ca, a, i, occ[..i1], vir[a1 + 1..], x);
    if DoubleFrom(c, s, ca, norb, i, a, x) {
      var j: nat, b: nat :| j in occ && j < i && b in vir && a < b &&
        DoubleGate(c, ca, a, i, b, j) && x == Excite(s1, j, b);
      SortedPrefix(occ, i1, j);
      SortedSuffix(vir, a1, b);
    }
    if x in Doubles(c, s1, ca, a, i, occ[..i1], vir[a1 + 1..]) {
      var j, b :| j in occ[..i1] && b in vir[a1 + 1..] && DoubleGate(c, ca, a, i, b, j) && x == Excite(s1, j, b);
      SortedPrefix(occ, i1, j);
      SortedSuffix(vir, a1, b);
    }
  }

  /** One pass of the inner loop yields exactly what `StepYields` describes. */
  lemma StepSpec(c: Criteria, nelec: nat, s: nat, ca: real, norb: nat, i1: nat, a1: nat, x: nat)
    requires i1 < |Occ(s, norb)| && a1 < |Vir(s, norb)|
    ensures var occ := Occ(s, norb);
      var vir := Vir(s, norb);
      InStep(c, nelec, s, ca, occ[i1], occ[..i1], vir, a1, x) <==>
      StepYields(c, nelec, s, ca, norb, occ[i1], vir[a1], x)
  {
    DoublesOfStep(c, s, ca, norb, i1, a1, x);
  }

  /** The proposals for one string are exactly the strings `Proposed` describes. */
  lemma ProposalsSpec(c: Criteria, nelec: nat, s: nat, ca: real, norb: nat, x: nat)
    ensures x in Proposals(c, nelec, s, ca, norb) <==> Proposed(c, nelec, s, ca, norb, x)
  {
    var occ := Occ(s, norb);
    var vir := Vir(s, norb);
    ForOccSpec(c, nelec, s, ca, occ, vir, |occ|, x);
    if x in Proposals(c, nelec, s, ca, norb) {
      var i1 :| 0 <= i1 < |occ| && InForVir(c, nelec, s, ca, occ, vir, i1, x);
      ForVirSpec(c, nelec, s, ca, occ[i1], occ[..i1], vir, |vir|, x);
      var a1 :| 0 <= a1 < |vir| && InStep(c, nelec, s, ca, occ[i1], occ[..i1], vir, a1, x);
      StepSpec(c, nelec, s, ca, norb, i1, a1, x);
      Member(occ, i1);
      Member(vir, a1);
    }
    if Proposed(c, nelec, s, ca, norb, x) {
      var i: nat, a: nat :| i in occ && a in vir && StepYields(c, nelec, s, ca, norb, i, a, x);
      var i1 :| 0 <= i1 < |occ| && occ[i1] == i;
      var a1 :| 0 <= a1 < |vir| && vir[a1] == a;
      StepSpec(c, nelec, s, ca, norb, i1, a1, x);
      ForVirSpec(c, nelec, s, ca, i, occ[..i1], vir, |vir|, x);
      assert InForVir(c, nelec, s, ca, occ, vir, i1, x);
    }
  }

  /** `x` is among the proposals for the string at position `k`. */
  ghost predicate InProposals(c: Criteria, civecMax: seq<real>, strs: seq<nat>, norb: nat, nelec: nat, k: int, x: nat)
  {
    0 <= k < |strs| && k < |civecMax| && x in Proposals(c, nelec, strs[k], civecMax[k], norb)
  }

  lemma AllProposalsLast(c: Criteria, civecMax: seq<real>, strs: seq<nat>, norb: nat, nelec: nat)
    requires 0 < |strs| <= |civecMax|
    ensures var n := |strs| - 1;
      AllProposals(c, civecMax, strs, norb, nelec) ==
      AllProposals(c, civecMax, strs[..n], norb, nelec) + Proposals(c, nelec, strs[n], civecMax[n], norb)
  {
  }

  /** Everything collected comes from the proposals of some string of the space. */
  lemma {:induction false} AllProposalsSource(c: Criteria, civecMax: seq<real>, strs: seq<nat>, norb: nat, nelec: nat, x: nat)
    requires |strs| <= |civecMax| && x in AllProposals(c, civecMax, strs, norb, nelec)
    ensures exists k :: InProposals(c, civecMax, strs, norb, nelec, k, x)
    decreases |strs|
  {
    var n := |strs| - 1;
    var pre := strs[..n];
    AllProposalsLast(c, civecMax, strs, norb, nelec);
    if x in Proposals(c, nelec, strs[n], civecMax[n], norb) {
      assert InProposals(c, civecMax, strs, norb, nelec, n, x);
    } else {
      AllProposalsSource(c, civecMax, pre, norb, nelec, x);
      var k :| InProposals(c, civecMax, pre, norb, nelec, k, x);
      assert pre[k] == strs[k];
      assert InProposals(c, civecMax, strs, norb, nelec, k, x);
    }
  }

  /** The proposals of every string of the space are collected. */
  lemma {:induction false} AllProposalsCollects(c: Criteria, civecMax: seq<real>, strs: seq<nat>, norb: nat, nelec: nat, k: nat, x: nat)
    requires |strs| <= |civecMax| && InProposals(c, civecMax, strs, norb, nelec, k, x)
    ensures x in AllProposals(c, civecMax, strs, norb, nelec)
    decreases |strs|
  {
    var n := |strs| - 1;
    var pre := strs[..n];
    AllProposalsLast(c, civecMax, strs, norb, nelec);
    var all := AllProposals(c, civecMax, pre, norb, nelec);
    var here := Proposals(c, nelec, strs[n], civecMax[n], norb);
    assert AllProposals(c, civecMax, strs, norb, nelec) == all + here;
    if k < n {
      assert pre[k] == strs[k];
      assert InProposals(c, civecMax, pre, norb, nelec, k, x);
      AllProposalsCollects(c, civecMax, pre, norb, nelec, k, x);
      assert x in all;
    } else {
      assert k == n;
      assert x in here;
    }
  }

  lemma AllProposalsSpec(c: Criteria, civecMax: seq<real>, strs: seq<nat>, norb: nat, nelec: nat, x: nat)
    requires |strs| <= |civecMax|
    ensures x in AllProposals(c, civecMax, strs, norb, nelec) <==> ProposedBy(c, civecMax, strs, norb, nelec, x)
  {
    if x in AllProposals(c, civecMax, strs, norb, nelec) {
      AllProposalsSource(c, civecMax, strs, norb, nelec, x);
      var k :| InProposals(c, civecMax, strs, norb, nelec, k, x);
      ProposalsSpec(c, nelec, strs[k], civecMax[k], norb, x);
      assert ProposedAt(c, civecMax, strs, norb, nelec, k, x);
    }
    if ProposedBy(c, civecMax, strs, norb, nelec, x) {
      var k :| ProposedAt(c, civecMax, strs, norb, nelec, k, x);
      ProposalsSpec(c, nelec, strs[k], civecMax[k], norb, x);
      AllProposalsCollects(c, civecMax, strs, norb, nelec, k, x);
    }
  }

  // ---- properties of select_strs ----

  /**
   * The selected strings are strictly increasing, and a string is selected
   * exactly when it is not in the space and some string of the space
   * proposes it.
   */
  lemma SelectStrsSpec(c: Criteria, civecMax: seq<real>, strs: seq<nat>, norb: nat, nelec: nat)
    requires |strs| <= |civecMax|
    ensures StrictlySorted(SelectStrs(c, civecMax, strs, norb, nelec))
    ensures forall x :: x in SelectStrs(c, civecMax, strs, norb, nelec) <==>
      x !in strs && ProposedBy(c, civecMax, strs, norb, nelec, x)
  {
    forall x
      ensures x in SelectStrs(c, civecMax, strs, norb, nelec) <==>
        x !in strs && ProposedBy(c, civecMax, strs, norb, nelec, x)
    {
      AllProposalsSpec(c, civecMax, strs, norb, nelec, x);
    }
  }

  /** A proposal keeps the string's electron count and orbital window. */
  lemma ProposedValid(c: Criteria, nelec: nat, s: nat, ca: real, norb: nat, x: nat)
    requires ValidString(s, norb, nelec) && Proposed(c, nelec, s, ca, norb, x)
    ensures ValidString(x, norb, nelec)
  {
    var i: nat, a: nat :| i in Occ(s, norb) && a in Vir(s, norb) && StepYields(c, nelec, s, ca, norb, i, a, x);
    var s1 := Excite(s, i, a);
    ExciteValid(s, i, a, norb, nelec);
    if x != s1 {
      var j: nat, b: nat :| j in Occ(s, norb) && j < i && b in Vir(s, norb) && a < b &&
        DoubleGate(c, ca, a, i, b, j) && x == Excite(s1, j, b);
      ExciteBit(s, i, a, j);
      ExciteBit(s, i, a, b);
      ExciteValid(s1, j, b, norb, nelec);
    }
  }

  /**
   * Selecting from a valid space gives strings of the same electron count
   * in the same orbitals, none of them already in the space.
   */
  lemma SelectValid(c: Criteria, civecMax: seq<real>, strs: seq<nat>, norb: nat, nelec: nat)
    requires |strs| <= |civecMax| && ValidSpace(strs, norb, nelec)
    ensures ValidSpace(SelectStrs(c, civecMax, strs, norb, nelec), norb, nelec)
    ensures forall x :: x in SelectStrs(c, civecMax, strs, norb, nelec) ==> x !in strs
  {
    var r := SelectStrs(c, civecMax, strs, norb, nelec);
    SelectStrsSpec(c, civecMax, strs, norb, nelec);
    forall m | 0 <= m < |r|
      ensures ValidString(r[m], norb, nelec)
    {
      Member(r, m);
      var k :| ProposedAt(c, civecMax, strs, norb, nelec, k, r[m]);
      ProposedValid(c, nelec, strs[k], civecMax[k], norb, r[m]);
    }
  }

  /** `eri_pq_max[a,i]` bounds every `|eri[a,i,b,j]|`, being the largest magnitude over the second pair. */
  predicate PqMaxBounds(c: Criteria, norb: nat)
  {
    forall a: nat, i: nat, b: nat, j: nat :: a < norb && i < norb && b < norb && j < norb ==>
      Abs(c.eri(a, i, b, j)) <= c.eriPqMax(a, i)
  }

  /**
   * With `eri_pq_max` the row-wise maximum and a non-negative amplitude, the
   * single-excitation screen loses no double excitation: every double
   * `i -> a, j -> b` with `j < i < nelec <= a < b` whose own integral passes
   * the cutoff is selected unless it is already in the space.
   */
  lemma SelectDoubleComplete(c: Criteria, civecMax: seq<real>, strs: seq<nat>, norb: nat, nelec: nat,
                             k: nat, i: nat, a: nat, j: nat, b: nat)
    requires |strs| <= |civecMax| && PqMaxBounds(c, norb)
    requires k < |strs| && 0.0 <= civecMax[k]
    requires j < i < nelec <= a < b < norb
    requires Bit(strs[k], i) && Bit(strs[k], j) && !Bit(strs[k], a) && !Bit(strs[k], b)
    requires DoubleGate(c, civecMax[k], a, i, b, j)
    ensures var x := Excite(Excite(strs[k], i, a), j, b);
      x in SelectStrs(c, civecMax, strs, norb, nelec) <==> x !in strs
  {
    var s := strs[k];
    var ca := civecMax[k];
    var x := Excite(Excite(s, i, a), j, b);
    assert Abs(c.eri(a, i, b, j)) <= c.eriPqMax(a, i);
    GateMonotone(Abs(c.eri(a, i, b, j)), c.eriPqMax(a, i), ca, c.cutoff);
    DoubleProposed(c, nelec, s, ca, norb, i, a, j, b);
    assert ProposedAt(c, civecMax, strs, norb, nelec, k, x);
    SelectStrsSpec(c, civecMax, strs, norb, nelec);
  }

  /** A double excitation past both screens is proposed. */
  lemma DoubleProposed(c: Criteria, nelec: nat, s: nat, ca: real, norb: nat, i: nat, a: nat, j: nat, b: nat)
    requires j < i < nelec <= a < b < norb
    requires Bit(s, i) && Bit(s, j) && !Bit(s, a) && !Bit(s, b)
    requires SingleGate(c, ca, a, i) && DoubleGate(c, ca, a, i, b, j)
    ensures Proposed(c, nelec, s, ca, norb, Excite(Excite(s, i, a), j, b))
  {
    var x := Excite(Excite(s, i, a), j, b);
    assert j in Occ(s, norb) && b in Vir(s, norb);
    assert DoubleFrom(c, s, ca, norb, i, a, x);
    assert i in Occ(s, norb) && a in Vir(s, norb);
    assert StepYields(c, nelec, s, ca, norb, i, a, x);
  }

  lemma GateMonotone(lo: real, hi: real, ca: real, cutoff: real)
    requires lo <= hi && 0.0 <= ca && lo * ca > cutoff
    ensures hi * ca > cutoff
  {
    assert lo * ca <= hi * ca;
  }

  /**
   * Every single excitation of a string of the space that passes the
   * screen is selected unless it is already in the space.
   */
  lemma SelectSingleComplete(c: Criteria, civecMax: seq<real>, strs: seq<nat>, norb: nat, nelec: nat,
                             k: nat, i: nat, a: nat)
    requires |strs| <= |civecMax| && k < |strs| && i < norb && a < norb
    requires Bit(strs[k], i) && !Bit(strs[k], a) && SingleGate(c, civecMax[k], a, i)
    ensures var x := Excite(strs[k], i, a);
      x in SelectStrs(c, civecMax, strs, norb, nelec) <==> x !in strs
  {
    var x := Excite(strs[k], i, a);
    assert StepYields(c, nelec, strs[k], civecMax[k], norb, i, a, x);
    assert ProposedAt(c, civecMax, strs, norb, nelec, k, x);
    SelectStrsSpec(c, civecMax, strs, norb, nelec);
  }
}
