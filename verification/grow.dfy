/**
 * One growth round of a spin channel's string space and the re-embedding of
 * the amplitude matrix: the newly selected strings are merged into the space
 * by a sorted union, and each old amplitude is copied to the new addresses of
 * its alpha and beta strings, with zeros everywhere else.
 */
module Grow {
  import opened Wrappers
  import opened Sorted
  import opened Bits
  import opened Space
  import opened Select

  /**
   * The sorted union of the space and the added strings: it is strictly
   * increasing and holds exactly the old and the added strings, so no old
   * string is dropped.
   */
  function Merge(space: seq<nat>, added: seq<nat>): (r: seq<nat>)
    ensures StrictlySorted(r)
    ensures forall x :: x in r <==> x in space || x in added
  {
    SortDedup(space + added)
  }

  /** Merging nothing new into a sorted space gives the same space: growth has converged. */
  lemma MergeConverged(space: seq<nat>, added: seq<nat>)
    requires StrictlySorted(space) && forall x :: x in added ==> x in space
    ensures Merge(space, added) == space
  {
    SortedUnique(Merge(space, added), space);
  }

  /** Merging the same strings twice gives what merging them once does. */
  lemma MergeIdempotent(space: seq<nat>, added: seq<nat>)
    ensures Merge(Merge(space, added), added) == Merge(space, added)
  {
    MergeConverged(Merge(space, added), added);
  }

  /** In a strictly sorted space, strings found at positions `rows` have exactly those addresses. */
  lemma SortedAddresses(xs: seq<nat>, found: seq<nat>, rows: seq<nat>)
    requires StrictlySorted(xs) && |found| == |rows|
    requires forall i :: 0 <= i < |rows| ==> rows[i] < |xs| && xs[rows[i]] == found[i]
    ensures forall i :: 0 <= i < |found| ==> Lookup(xs, found[i]) == Some(rows[i])
  {
    assert Distinct(xs);
    forall i | 0 <= i < |found|
      ensures Lookup(xs, found[i]) == Some(rows[i])
    {
      LookupDistinct(xs, rows[i]);
    }
  }

  /**
   * One spin channel of a growth round: select from the current space with
   * the channel's amplitude bounds and merge the selection in.
   */
  function Enlarge(c: Criteria, civecMax: seq<real>, strs: seq<nat>, norb: nat, nelec: nat): (r: seq<nat>)
    requires |strs| <= |civecMax|
    ensures StrictlySorted(r)
    ensures forall x :: x in strs ==> x in r
  {
    Merge(strs, SelectStrs(c, civecMax, strs, norb, nelec))
  }

  /**
   * The enlarged space is sorted, keeps every old string, adds exactly the
   * proposed strings, and stays a space of `nelec`-electron strings.
   */
  lemma EnlargeSpec(c: Criteria, civecMax: seq<real>, strs: seq<nat>, norb: nat, nelec: nat)
    requires |strs| <= |civecMax| && ValidSpace(strs, norb, nelec)
    ensures var r := Enlarge(c, civecMax, strs, norb, nelec);
      StrictlySorted(r) && ValidSpace(r, norb, nelec) &&
      forall x :: x in r <==> x in strs || ProposedBy(c, civecMax, strs, norb, nelec, x)
  {
    var added := SelectStrs(c, civecMax, strs, norb, nelec);
    var r := Enlarge(c, civecMax, strs, norb, nelec);
    SelectStrsSpec(c, civecMax, strs, norb, nelec);
    SelectValid(c, civecMax, strs, norb, nelec);
    forall k | 0 <= k < |r|
      ensures ValidString(r[k], norb, nelec)
    {
      Member(r, k);
      if r[k] in strs {
        var i :| 0 <= i < |strs| && strs[i] == r[k];
      } else {
        var i :| 0 <= i < |added| && added[i] == r[k];
      }
    }
  }

  // ---- amplitudes ----

  /** A `rows` by `cols` matrix of amplitudes, alpha strings along the rows. */
  predicate Shape(m: seq<seq<real>>, rows: nat, cols: nat)
  {
    |m| == rows && forall r :: 0 <= r < rows ==> |m[r]| == cols
  }

  /** The amplitude the old matrix gives the pair `(x, y)`, or 0 when either string is new. */
  function Amplitude(coeff: seq<seq<real>>, oldA: seq<nat>, oldB: seq<nat>, x: nat, y: nat): real
    requires Shape(coeff, |oldA|, |oldB|)
  {
    match (Lookup(oldA, x), Lookup(oldB, y))
    case (Some(i), Some(j)) => coeff[i][j]
    case _ => 0.0
  }

  /** The zero-filled matrix over the enlarged spaces with the old amplitudes copied in. */
  function Embed(coeff: seq<seq<real>>, oldA: seq<nat>, oldB: seq<nat>, newA: seq<nat>, newB: seq<nat>): (m: seq<seq<real>>)
    requires Shape(coeff, |oldA|, |oldB|)
    ensures Shape(m, |newA|, |newB|)
  {
    seq(|newA|, r requires 0 <= r < |newA| =>
      seq(|newB|, c requires 0 <= c < |newB| => Amplitude(coeff, oldA, oldB, newA[r], newB[c])))
  }

  /** Reads the amplitudes of the old strings back out of a matrix over spaces that contain them. */
  function Restrict(m: seq<seq<real>>, newA: seq<nat>, newB: seq<nat>, oldA: seq<nat>, oldB: seq<nat>): (r: seq<seq<real>>)
    requires Shape(m, |newA|, |newB|)
    requires forall x :: x in oldA ==> x in newA
    requires forall y :: y in oldB ==> y in newB
    ensures Shape(r, |oldA|, |oldB|)
  {
    seq(|oldA|, i requires 0 <= i < |oldA| =>
      seq(|oldB|, j requires 0 <= j < |oldB| =>
        m[Lookup(newA, oldA[i]).value][Lookup(newB, oldB[j]).value]))
  }

  /**
   * Each old amplitude lands at the new addresses of its two strings, and
   * every position whose alpha or beta string is new holds 0.
   */
  lemma EmbedPlaces(coeff: seq<seq<real>>, oldA: seq<nat>, oldB: seq<nat>, newA: seq<nat>, newB: seq<nat>)
    requires Shape(coeff, |oldA|, |oldB|) && Distinct(oldA) && Distinct(oldB)
    ensures var m := Embed(coeff, oldA, oldB, newA, newB);
      (forall i, j, r, c ::
        0 <= i < |oldA| && 0 <= j < |oldB| && 0 <= r < |newA| && 0 <= c < |newB| && newA[r] == oldA[i] && newB[c] == oldB[j]
        ==> m[r][c] == coeff[i][j]) &&
      (forall r, c :: 0 <= r < |newA| && 0 <= c < |newB| && (newA[r] !in oldA || newB[c] !in oldB) ==> m[r][c] == 0.0)
  {
    forall i, j | 0 <= i < |oldA| && 0 <= j < |oldB|
      ensures Lookup(oldA, oldA[i]) == Some(i) && Lookup(oldB, oldB[j]) == Some(j)
    {
      LookupDistinct(oldA, i);
      LookupDistinct(oldB, j);
    }
  }

  /** Embedding into spaces that contain the old ones and reading back gives the old matrix. */
  lemma RestrictEmbed(coeff: seq<seq<real>>, oldA: seq<nat>, oldB: seq<nat>, newA: seq<nat>, newB: seq<nat>)
    requires Shape(coeff, |oldA|, |oldB|) && Distinct(oldA) && Distinct(oldB)
    requires forall x :: x in oldA ==> x in newA
    requires forall y :: y in oldB ==> y in newB
    ensures Restrict(Embed(coeff, oldA, oldB, newA, newB), newA, newB, oldA, oldB) == coeff
  {
    var m := Embed(coeff, oldA, oldB, newA, newB);
    var back := Restrict(m, newA, newB, oldA, oldB);
    EmbedPlaces(coeff, oldA, oldB, newA, newB);
    forall i | 0 <= i < |oldA|
      ensures back[i] == coeff[i]
    {
      forall j | 0 <= j < |oldB|
        ensures back[i][j] == coeff[i][j]
      {
        Member(oldA, i);
        Member(oldB, j);
        var r := Lookup(newA, oldA[i]).value;
        var c := Lookup(newB, oldB[j]).value;
        assert m[r][c] == coeff[i][j];
      }
    }
  }
}
