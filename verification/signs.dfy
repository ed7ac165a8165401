/**
 * Fermionic reordering signs. The string library's `cre_sign`, `des_sign`
 * and `cre_des_sign` are not part of this model; they are defined here by the
 * usual convention: the parity of the occupied orbitals above the created or
 * annihilated orbital, and for an excitation the parity of the occupied
 * orbitals strictly between its two orbitals. A result of 0 marks an
 * operator that annihilates the string.
 */
module Signs {
  import opened Bits

  /** Number of set bits of `n`. */
  function PopCount(n: nat): nat
  {
    if n == 0 then 0 else n % 2 + PopCount(n / 2)
  }

  /** `s >> k`. */
  function Shr(s: nat, k: nat): nat
  {
    if k == 0 then s else Shr(s / 2, k - 1)
  }

  /** `(-1) ** n`. */
  function Parity(n: nat): int
  {
    if n % 2 == 0 then 1 else -1
  }

  /** Number of occupied orbitals `k` with `lo <= k < hi`. */
  function CountIn(s: nat, lo: nat, hi: nat): nat
    decreases hi
  {
    if hi <= lo then 0 else CountIn(s, lo, hi - 1) + (if Bit(s, hi - 1) then 1 else 0)
  }

  /** Sign of creating an electron in orbital `p` of `s`; 0 when `p` is occupied. */
  function CreSign(p: nat, s: nat): (r: int)
    ensures r == 0 <==> Bit(s, p)
    ensures r == 0 || r == 1 || r == -1
  {
    if Bit(s, p) then 0 else Parity(PopCount(Shr(s, p + 1)))
  }

  /** Sign of annihilating the electron in orbital `p` of `s`; 0 when `p` is empty. */
  function DesSign(p: nat, s: nat): (r: int)
    ensures r == 0 <==> !Bit(s, p)
    ensures r == 0 || r == 1 || r == -1
  {
    if !Bit(s, p) then 0 else Parity(PopCount(Shr(s, p + 1)))
  }

  /** Sign of `a_p^+ a_q` acting on `s`; 1 for the number operator, 0 when the excitation is impossible. */
  function CreDesSign(p: nat, q: nat, s: nat): (r: int)
    ensures p == q ==> r == 1
    ensures r == 0 <==> p != q && (Bit(s, p) || !Bit(s, q))
    ensures r == 0 || r == 1 || r == -1
  {
    if p == q then 1
    else if Bit(s, p) || !Bit(s, q) then 0
    else if p > q then Parity(CountIn(s, q + 1, p))
    else Parity(CountIn(s, p + 1, q))
  }

  lemma {:induction false} ShrBit(s: nat, k: nat, m: nat)
    ensures Bit(Shr(s, k), m) == Bit(s, m + k)
    decreases k
  {
    if k > 0 {
      ShrBit(s / 2, k - 1, m);
    }
  }

  /** Flipping a bit at or above `k` flips the corresponding bit of `s >> k`. */
  lemma {:induction false} ShrToggleAbove(s: nat, i: nat, k: nat)
    requires k <= i
    ensures Shr(Toggle(s, i), k) == Toggle(Shr(s, k), i - k)
    decreases k
  {
    if k > 0 {
      assert Toggle(s, i) / 2 == Toggle(s / 2, i - 1);
      ShrToggleAbove(s / 2, i - 1, k - 1);
    }
  }

  /** Flipping a bit below `k` is invisible in `s >> k`. */
  lemma {:induction false} ShrToggleBelow(s: nat, i: nat, k: nat)
    requires i < k
    ensures Shr(Toggle(s, i), k) == Shr(s, k)
    decreases k
  {
    if i == 0 {
      assert Toggle(s, 0) / 2 == s / 2;
    } else {
      assert Toggle(s, i) / 2 == Toggle(s / 2, i - 1);
      ShrToggleBelow(s / 2, i - 1, k - 1);
    }
  }

  /** Flipping one bit changes the population count by one. */
  lemma {:induction false} PopCountToggle(x: nat, m: nat)
    ensures PopCount(Toggle(x, m)) == if Bit(x, m) then PopCount(x) - 1 else PopCount(x) + 1
    decreases m
  {
    if m == 0 {
      assert Toggle(x, 0) / 2 == x / 2;
    } else {
      var t := Toggle(x / 2, m - 1);
      assert Toggle(x, m) == 2 * t + x % 2;
      assert Toggle(x, m) / 2 == t && Toggle(x, m) % 2 == x % 2;
      PopCountToggle(x / 2, m - 1);
    }
  }

  /** One more electron flips the parity. */
  lemma ParityNext(n: nat)
    ensures Parity(n + 1) == -Parity(n)
  {
    if n % 2 == 0 {
      assert (n + 1) % 2 == 1;
    } else {
      assert (n + 1) % 2 == 0;
    }
  }

  /** Occupied orbitals above `k` after creating an electron in orbital `i`. */
  lemma AboveAfterCreate(s: nat, i: nat, k: nat)
    requires !Bit(s, i)
    ensures PopCount(Shr(Toggle(s, i), k)) == PopCount(Shr(s, k)) + (if k <= i then 1 else 0)
  {
    if k <= i {
      ShrToggleAbove(s, i, k);
      ShrBit(s, k, i - k);
      PopCountToggle(Shr(s, k), i - k);
    } else {
      ShrToggleBelow(s, i, k);
    }
  }

  /** Occupied orbitals above `k` after emptying the occupied orbital `i`. */
  lemma AboveAfterAnnihilate(s: nat, i: nat, k: nat)
    requires Bit(s, i)
    ensures PopCount(Shr(Toggle(s, i), k)) + (if k <= i then 1 else 0) == PopCount(Shr(s, k))
  {
    if k <= i {
      ShrToggleAbove(s, i, k);
      ShrBit(s, k, i - k);
      PopCountToggle(Shr(s, k), i - k);
    } else {
      ShrToggleBelow(s, i, k);
    }
  }

  lemma {:induction false} ShrNext(s: nat, m: nat)
    ensures Shr(s, m + 1) == Shr(s, m) / 2
    decreases m
  {
    if m > 0 {
      ShrNext(s / 2, m - 1);
    }
  }

  /** The occupied orbitals at or above `k` are those in `[k, h)` and those at or above `h`. */
  lemma {:induction false} CountAbove(s: nat, k: nat, h: nat)
    requires k <= h
    ensures PopCount(Shr(s, k)) == CountIn(s, k, h) + PopCount(Shr(s, h))
    decreases h - k
  {
    if k < h {
      CountAbove(s, k, h - 1);
      var t := Shr(s, h - 1);
      ShrNext(s, h - 1);
      ShrBit(s, h - 1, 0);
      assert PopCount(t) == t % 2 + PopCount(t / 2);
      assert CountIn(s, k, h) == CountIn(s, k, h - 1) + (if Bit(s, h - 1) then 1 else 0);
    }
  }

  /** Counting `b` more electrons twice leaves the parity of `c`. */
  lemma ParityCancel(c: nat, b: nat)
    ensures Parity(c + b) * Parity(b) == Parity(c)
  {
    if b % 2 == 0 {
      assert (c + b) % 2 == c % 2;
    } else {
      assert (c + b) % 2 != c % 2;
    }
  }

  /** An excitation to a higher orbital `a > i`. */
  lemma ExciteSignUp(a: nat, i: nat, s: nat)
    requires i < a && Bit(s, i) && !Bit(s, a)
    ensures CreDesSign(a, i, s) == DesSign(i, s) * CreSign(a, Toggle(s, i))
  {
    var c := CountIn(s, i + 1, a);
    var above := PopCount(Shr(s, a + 1));
    ToggleBit(s, i, a);
    ShrToggleBelow(s, i, a + 1);
    assert CreSign(a, Toggle(s, i)) == Parity(above);
    CountAbove(s, i + 1, a + 1);
    assert CountIn(s, i + 1, a + 1) == c;
    assert DesSign(i, s) == Parity(c + above);
    ParityCancel(c, above);
  }

  /** An excitation to a lower orbital `a < i`. */
  lemma ExciteSignDown(a: nat, i: nat, s: nat)
    requires a < i && Bit(s, i) && !Bit(s, a)
    ensures CreDesSign(a, i, s) == DesSign(i, s) * CreSign(a, Toggle(s, i))
  {
    var c := CountIn(s, a + 1, i);
    var above := PopCount(Shr(s, i + 1));
    ToggleBit(s, i, a);
    AboveAfterAnnihilate(s, i, a + 1);
    CountAbove(s, a + 1, i + 1);
    assert CountIn(s, a + 1, i + 1) == c + 1;
    assert CreSign(a, Toggle(s, i)) == Parity(c + above);
    assert DesSign(i, s) == Parity(above);
    ParityCancel(c, above);
  }

  /**
   * An excitation is an annihilation followed by a creation: the sign of
   * `a_a^+ a_i` on `s` is the sign of emptying `i` times the sign of then
   * filling `a`, so the three sign conventions agree with one another.
   */
  lemma ExciteSign(a: nat, i: nat, s: nat)
    requires a != i || Bit(s, i)
    ensures CreDesSign(a, i, s) == DesSign(i, s) * CreSign(a, Toggle(s, i))
  {
    ToggleBit(s, i, a);
    if a == i {
      ShrToggleBelow(s, i, i + 1);
      ParityCancel(0, PopCount(Shr(s, i + 1)));
    } else if !Bit(s, i) || Bit(s, a) {
    } else if a > i {
      ExciteSignUp(a, i, s);
    } else {
      ExciteSignDown(a, i, s);
    }
  }

  /**
   * Creating two electrons in the opposite order flips the sign:
   * `a_i^+ a_j^+ = -a_j^+ a_i^+`, which is why the double-annihilation table
   * stores `(j, i, dest, -sign)` next to `(i, j, dest, sign)`.
   */
  lemma CreatePairSwap(s: nat, i: nat, j: nat)
    requires i != j && !Bit(s, i) && !Bit(s, j)
    ensures CreSign(i, s) * CreSign(j, SetBit(s, i)) == -(CreSign(j, s) * CreSign(i, SetBit(s, j)))
    ensures CreSign(i, s) * CreSign(j, SetBit(s, i)) == 1 || CreSign(i, s) * CreSign(j, SetBit(s, i)) == -1
  {
    if i > j {
      CreateBelowAbove(s, i, j);
    } else {
      CreateBelowAbove(s, j, i);
    }
  }

  /** Sign bookkeeping for creating `hi` and `lo < hi` in either order. */
  lemma CreateBelowAbove(s: nat, hi: nat, lo: nat)
    requires lo < hi && !Bit(s, hi) && !Bit(s, lo)
    ensures CreSign(hi, s) == Parity(PopCount(Shr(s, hi + 1)))
    ensures CreSign(lo, SetBit(s, hi)) == -Parity(PopCount(Shr(s, lo + 1)))
    ensures CreSign(lo, s) == Parity(PopCount(Shr(s, lo + 1)))
    ensures CreSign(hi, SetBit(s, lo)) == Parity(PopCount(Shr(s, hi + 1)))
  {
    var withHi := SetBit(s, hi);
    assert withHi == Toggle(s, hi);
    ToggleBit(s, hi, lo);
    assert !Bit(withHi, lo);
    AboveAfterCreate(s, hi, lo + 1);
    var n := PopCount(Shr(s, lo + 1));
    assert PopCount(Shr(withHi, lo + 1)) == n + 1;
    ParityNext(n);
    var withLo := SetBit(s, lo);
    assert withLo == Toggle(s, lo);
    ToggleBit(s, lo, hi);
    assert !Bit(withLo, hi);
    AboveAfterCreate(s, lo, hi + 1);
    assert PopCount(Shr(withLo, hi + 1)) == PopCount(Shr(s, hi + 1));
  }
}
