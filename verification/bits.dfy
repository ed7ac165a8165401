/**
 * Determinant strings as natural numbers: bit `i` set means spin-orbital `i`
 * is occupied. The bit operations the builders use (testing, flipping and
 * setting one bit) are defined on unbounded naturals by halving, so no
 * machine width is assumed.
 */
module Bits {
  import opened Sorted

  function Pow2(n: nat): (r: nat)
    ensures r >= 1
  {
    if n == 0 then 1 else 2 * Pow2(n - 1)
  }

  /** Orbital `i` of `s` is occupied: bit `i` of `s` is set. */
  predicate Bit(s: nat, i: nat)
  {
    if i == 0 then s % 2 == 1 else Bit(s / 2, i - 1)
  }

  /** `s` with bit `i` flipped. */
  function Toggle(s: nat, i: nat): nat
  {
    if i == 0 then (if s % 2 == 1 then s - 1 else s + 1)
    else 2 * Toggle(s / 2, i - 1) + s % 2
  }

  /** `s` with bit `i` set, unchanged when it already is. */
  function SetBit(s: nat, i: nat): nat
  {
    if Bit(s, i) then s else Toggle(s, i)
  }

  /** Flip bit `i` of `s`, then set bit `a`: move an electron from orbital `i` to orbital `a`. */
  function Excite(s: nat, i: nat, a: nat): nat
  {
    SetBit(Toggle(s, i), a)
  }

  /** The occupied orbitals of `s` below `n`, in ascending order. */
  function Occ(s: nat, n: nat): (r: seq<nat>)
    ensures forall x: nat :: x in r <==> x < n && Bit(s, x)
    ensures StrictlySorted(r)
  {
    if n == 0 then []
    else
      var r := Occ(s, n - 1);
      if Bit(s, n - 1) then
        SnocSorted(r, n - 1);
        r + [n - 1]
      else r
  }

  /** The virtual (unoccupied) orbitals of `s` below `n`, ascending. */
  function Vir(s: nat, n: nat): (r: seq<nat>)
    ensures forall x: nat :: x in r <==> x < n && !Bit(s, x)
    ensures StrictlySorted(r)
  {
    if n == 0 then []
    else
      var r := Vir(s, n - 1);
      if !Bit(s, n - 1) then
        SnocSorted(r, n - 1);
        r + [n - 1]
      else r
  }

  /** A string of `nelec` electrons in `norb` orbitals: no bit at or above `norb`, `nelec` bits below. */
  predicate ValidString(s: nat, norb: nat, nelec: nat)
  {
    s < Pow2(norb) && |Occ(s, norb)| == nelec
  }

  /** Every orbital below `n` is either occupied or virtual. */
  lemma {:induction false} OccVirCount(s: nat, n: nat)
    ensures |Occ(s, n)| + |Vir(s, n)| == n
  {
    if n > 0 {
      OccVirCount(s, n - 1);
    }
  }

  /** Flipping bit `i` changes bit `i` and no other. */
  lemma {:induction false} ToggleBit(s: nat, i: nat, j: nat)
    ensures Bit(Toggle(s, i), j) == (if i == j then !Bit(s, j) else Bit(s, j))
    decreases i
  {
    if i == 0 {
      if j > 0 {
        assert Toggle(s, 0) / 2 == s / 2;
      }
    } else {
      var t := Toggle(s / 2, i - 1);
      assert Toggle(s, i) == 2 * t + s % 2;
      if j > 0 {
        assert Toggle(s, i) / 2 == t;
        ToggleBit(s / 2, i - 1, j - 1);
      }
    }
  }

  /** Setting bit `i` sets it and changes no other. */
  lemma SetBitBit(s: nat, i: nat, j: nat)
    ensures Bit(SetBit(s, i), j) == (j == i || Bit(s, j))
  {
    ToggleBit(s, i, j);
  }

  /** Flipping a bit leaves the occupation below it unchanged. */
  lemma {:induction false} OccToggleBelow(s: nat, i: nat, n: nat)
    requires n <= i
    ensures Occ(Toggle(s, i), n) == Occ(s, n)
  {
    if n > 0 {
      OccToggleBelow(s, i, n - 1);
      ToggleBit(s, i, n - 1);
    }
  }

  /** Flipping an orbital below `n` changes the electron count below `n` by one. */
  lemma {:induction false} ToggleCount(s: nat, i: nat, n: nat)
    requires i < n
    ensures |Occ(Toggle(s, i), n)| == if Bit(s, i) then |Occ(s, n)| - 1 else |Occ(s, n)| + 1
  {
    ToggleBit(s, i, n - 1);
    if i == n - 1 {
      OccToggleBelow(s, i, n - 1);
    } else {
      ToggleCount(s, i, n - 1);
    }
  }

  /** Flipping an orbital below `n` keeps a string below `2^n`. */
  lemma {:induction false} ToggleBound(s: nat, i: nat, n: nat)
    requires s < Pow2(n) && i < n
    ensures Toggle(s, i) < Pow2(n)
  {
    assert Pow2(n) == 2 * Pow2(n - 1);
    if i > 0 {
      assert s / 2 < Pow2(n - 1);
      ToggleBound(s / 2, i - 1, n - 1);
      assert Toggle(s, i) == 2 * Toggle(s / 2, i - 1) + s % 2;
    }
  }

  /** Occupation of an excited string: `a` becomes occupied, `i` empty, all else unchanged. */
  lemma ExciteBit(s: nat, i: nat, a: nat, j: nat)
    requires Bit(s, i) && !Bit(s, a)
    ensures Bit(Excite(s, i, a), j) == (j == a || (j != i && Bit(s, j)))
  {
    ToggleBit(s, i, j);
    ToggleBit(s, i, a);
    SetBitBit(Toggle(s, i), a, j);
  }

  /** A single excitation inside the orbital window keeps the string valid: the electron count is preserved. */
  lemma ExciteValid(s: nat, i: nat, a: nat, norb: nat, nelec: nat)
    requires ValidString(s, norb, nelec)
    requires i < norb && a < norb && Bit(s, i) && !Bit(s, a)
    ensures ValidString(Excite(s, i, a), norb, nelec)
  {
    var t := Toggle(s, i);
    ToggleCount(s, i, norb);
    ToggleBound(s, i, norb);
    ToggleBit(s, i, a);
    ToggleCount(t, a, norb);
    ToggleBound(t, a, norb);
  }

  /** Two strings with the same occupation of every orbital are the same number. */
  lemma {:induction false} BitsEqual(x: nat, y: nat)
    requires forall k: nat :: Bit(x, k) == Bit(y, k)
    ensures x == y
    decreases x + y
  {
    if x != 0 || y != 0 {
      assert Bit(x, 0) == Bit(y, 0);
      forall k: nat
        ensures Bit(x / 2, k) == Bit(y / 2, k)
      {
        assert Bit(x, k + 1) == Bit(y, k + 1);
      }
      BitsEqual(x / 2, y / 2);
    }
  }

  /** Setting two bits gives the same string in either order. */
  lemma SetBitCommute(s: nat, i: nat, j: nat)
    ensures SetBit(SetBit(s, i), j) == SetBit(SetBit(s, j), i)
  {
    forall k: nat
      ensures Bit(SetBit(SetBit(s, i), j), k) == Bit(SetBit(SetBit(s, j), i), k)
    {
      SetBitBit(s, i, k);
      SetBitBit(s, j, k);
      SetBitBit(SetBit(s, i), j, k);
      SetBitBit(SetBit(s, j), i, k);
    }
    BitsEqual(SetBit(SetBit(s, i), j), SetBit(SetBit(s, j), i));
  }

  /** Emptying an occupied orbital and refilling it gives the string back; likewise filling an empty one and emptying it. */
  lemma RestoreBit(s: nat, i: nat)
    ensures Bit(s, i) ==> SetBit(Toggle(s, i), i) == s
    ensures !Bit(s, i) ==> Toggle(SetBit(s, i), i) == s
  {
    ToggleBit(s, i, i);
    forall k: nat
      ensures Bit(Toggle(Toggle(s, i), i), k) == Bit(s, k)
    {
      ToggleBit(s, i, k);
      ToggleBit(Toggle(s, i), i, k);
    }
    BitsEqual(Toggle(Toggle(s, i), i), s);
  }
}
