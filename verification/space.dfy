/**
 * A string space: the sequence of determinant strings of one spin channel.
 * A string's address is its position, found through a dictionary from
 * each string to its index.
 */
module Space {
  import opened Wrappers
  import opened Bits

  predicate Distinct(strs: seq<nat>)
  {
    forall k, l :: 0 <= k < l < |strs| ==> strs[k] != strs[l]
  }

  /** Every string of the space has `nelec` electrons in `norb` orbitals. */
  predicate ValidSpace(strs: seq<nat>, norb: nat, nelec: nat)
  {
    nelec <= norb && forall k :: 0 <= k < |strs| ==> ValidString(strs[k], norb, nelec)
  }

  /**
   * The address the dictionary built from `strs` gives `x`. Building a
   * dictionary overwrites earlier keys, so a repeated string maps to its
   * LAST position.
   */
  function Lookup(strs: seq<nat>, x: nat): (r: Option<nat>)
    ensures r.Some? <==> x in strs
    ensures r.Some? ==> r.value < |strs| && strs[r.value] == x
    ensures r.Some? ==> forall k :: r.value < k < |strs| ==> strs[k] != x
    decreases |strs|
  {
    if |strs| == 0 then None
    else if strs[|strs| - 1] == x then Some(|strs| - 1)
    else
      assert strs == strs[..|strs| - 1] + [strs[|strs| - 1]];
      Lookup(strs[..|strs| - 1], x)
  }

  /** In a space without repeats, the address of the string at position `k` is `k`. */
  lemma LookupDistinct(strs: seq<nat>, k: nat)
    requires Distinct(strs) && k < |strs|
    ensures Lookup(strs, strs[k]) == Some(k)
  {
  }

  /** In a space without repeats, `Lookup` finds exactly the positions holding `x`. */
  lemma LookupIff(strs: seq<nat>, x: nat, d: nat)
    requires Distinct(strs)
    ensures Lookup(strs, x) == Some(d) <==> d < |strs| && strs[d] == x
  {
    if d < |strs| && strs[d] == x {
      LookupDistinct(strs, d);
    }
  }
}
