/**
 * The regression scenario of the selected-CI tests: six orbitals with three
 * electrons of each spin, the starting alpha space `[0b111, 0b1011, 0b10101]`
 * and beta space `[0b111, 0b1011, 0b1101]`, and the enlarged spaces one
 * growth round produces with cutoffs `.1` and `.01`. The selection itself
 * depends on seeded pseudo-random integrals, so the strings it adds are taken
 * as given; what follows from them is checked here.
 */
module Golden {
  import opened Wrappers
  import opened Sorted
  import opened Space
  import opened Grow

  const OldAlpha: seq<nat> := [7, 11, 21]
  const OldBeta: seq<nat> := [7, 11, 13]

  const NewAlpha: seq<nat> := [7, 11, 13, 14, 19, 21, 22, 25, 26, 28, 35, 37, 41, 42, 49, 52, 56]
  const NewBeta: seq<nat> := [7, 11, 13, 14, 19, 21, 22, 25, 28, 35, 37, 38, 41, 44, 49, 50, 52, 56]

  /** Where the old strings sit in the enlarged spaces: rows 0, 1, 5 and columns 0, 1, 2. */
  const OldRows: seq<nat> := [0, 1, 5]
  const OldCols: seq<nat> := [0, 1, 2]

  /**
   * Whatever order the selector adds them in, merging the added alpha and
   * beta strings into the starting spaces gives exactly the 17 and 18 listed
   * strings.
   */
  lemma GoldenGrowth(addedAlpha: seq<nat>, addedBeta: seq<nat>)
    requires forall x :: x in addedAlpha <==> x in NewAlpha && x !in OldAlpha
    requires forall x :: x in addedBeta <==> x in NewBeta && x !in OldBeta
    ensures Merge(OldAlpha, addedAlpha) == NewAlpha && |NewAlpha| == 17
    ensures Merge(OldBeta, addedBeta) == NewBeta && |NewBeta| == 18
  {
    ChainSorted(NewAlpha);
    ChainSorted(NewBeta);
    SortedUnique(Merge(OldAlpha, addedAlpha), NewAlpha);
    SortedUnique(Merge(OldBeta, addedBeta), NewBeta);
  }

  /** The old strings sit at rows 0, 1, 5 and columns 0, 1, 2 of the enlarged spaces. */
  lemma GoldenAddresses()
    ensures forall i :: 0 <= i < 3 ==> Lookup(NewAlpha, OldAlpha[i]) == Some(OldRows[i])
    ensures forall j :: 0 <= j < 3 ==> Lookup(NewBeta, OldBeta[j]) == Some(OldCols[j])
  {
    ChainSorted(NewAlpha);
    SortedAddresses(NewAlpha, OldAlpha, OldRows);
    ChainSorted(NewBeta);
    SortedAddresses(NewBeta, OldBeta, OldCols);
  }

  /** The old amplitudes reappear unchanged at those rows and columns of the enlarged matrix. */
  lemma GoldenEmbedding(coeff: seq<seq<real>>)
    requires Shape(coeff, 3, 3)
    ensures var cic := Embed(coeff, OldAlpha, OldBeta, NewAlpha, NewBeta);
      Shape(cic, 17, 18) &&
      forall i, j :: 0 <= i < 3 && 0 <= j < 3 ==> cic[OldRows[i]][OldCols[j]] == coeff[i][j]
  {
    assert Distinct(OldAlpha) && Distinct(OldBeta);
    EmbedPlaces(coeff, OldAlpha, OldBeta, NewAlpha, NewBeta);
    assert forall i :: 0 <= i < 3 ==> NewAlpha[OldRows[i]] == OldAlpha[i];
    assert forall j :: 0 <= j < 3 ==> NewBeta[OldCols[j]] == OldBeta[j];
  }
}
