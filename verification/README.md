# Selected-CI determinant strings

This project models the determinant-string engine of pyscf's selected
configuration interaction (SCI) module, as written out in
`fci/test/test_select_ci.py`. In that code an occupation string is an integer
whose bit `i` is set when spin-orbital `i` holds an electron. A CI space is a
list of such strings.

The module builds **link tables**. Each row of a table lists the
one-operator or two-operator moves that connect a string (or an
intermediate string) to other strings of the space. Each entry holds the
orbitals, the target address and the fermionic sign. The **selector**
proposes new strings reachable from the current space by single and double
excitations whose integral-weighted amplitude passes a cutoff.

The model:

- **Bits.** Strings are unbounded `nat`s. The module defines bit tests, `^`
  and `|` with one bit, and excitation. `Occ` and `Vir` are the ascending
  occupied and empty orbital lists below `norb`. `ValidString` means
  `str < 2**norb` with exactly `nelec` bits set.
- **Signs.** `CreSign`, `DesSign` and `CreDesSign` stand in for `cistring`'s
  helpers. Each is the parity of the occupied orbitals above the orbital
  acted on, or strictly between the two orbitals of an excitation.
  `CreSign` and `DesSign` are 0 when the operator annihilates the string.
  `CreDesSign` is 0 when an excitation between two different orbitals is
  impossible, and 1 for the number operator (`p == q`) whatever the
  string.
- **Sorted and Space.** `sorted(set(xs))` is modelled as `SortDedup`, and
  `set(a) - set(b)` as `Without`. `dict(zip(strs, range(len(strs))))` is
  modelled as `Lookup`, which returns the *last* position of a string, as a
  Python dict keeps the last value written.
- **LinkTable.** A table is a sequence of rows. Each row has fixed-width
  `slots` of `Entry(p, q, dest, sign)` and a `count` of filled slots; the
  remaining slots stay zero, as `numpy.zeros` leaves them. The module also
  holds the triangular packings `a*(a+1)//2+i` and `i*(i-1)//2+j`.
- **GenLink.** `gen_des_linkstr` and `gen_cre_linkstr` build the
  intermediates with one electron removed (or added), and the table that
  leads from each intermediate back into the space. Their `None` results are
  modelled with `Option`.
- **CreDes.** `cre_des_linkstr` and `cre_des_linkstr_tril` build, for each
  string, the diagonal entries and then every single excitation that lands
  in the space.
- **DesDes.** `des_des_linkstr` and `des_des_linkstr_tril` build the
  intermediates with two electrons removed. Each row of the full table holds
  each pair of creations twice, with opposite signs; the tril table holds
  each pair once, packed.
- **Select.** `select_strs` takes the integrals as functions on reals and the
  cutoff as a real.
- **Grow.** Growing a space is a merge of the space with the selected
  strings. The coefficient matrix is re-embedded in the larger space.
- **Golden.** The fixed strings of the regression test and the enlarged
  spaces it expects.

## Model

| member | source | states |
|---|---|---|
| Bits.Occ | fci/test/test_select_ci.py:383-387 | the occupied list holds exactly the set bits below `norb`, in strictly ascending order |
| Bits.Vir | fci/test/test_select_ci.py:341 | the empty-orbital list holds exactly the clear bits below `norb`, in strictly ascending order |
| Bits.OccVirCount | fci/test/test_select_ci.py:383-387 | every orbital below `norb` lands in exactly one of the occupied and empty lists |
| Bits.ExciteValid | fci/test/test_select_ci.py:394 | moving an electron from an occupied to an empty orbital keeps the string inside `norb` orbitals with the same electron count |
| Bits.ToggleCount | fci/test/test_select_ci.py:334 | flipping one orbital below `norb` changes the electron count by exactly one, down if it was occupied and up otherwise |
| Bits.SetBitCommute | fci/test/test_select_ci.py:449 | setting orbital `i` and then `j` gives the same string as setting `j` and then `i`, so the target of a pair does not depend on creation order |
| Bits.RestoreBit | fci/test/test_select_ci.py:344 | removing an occupied orbital and setting it again gives back the original string, and the same holds the other way round for an empty orbital |
| Signs.CreSign | fci/test/test_select_ci.py:346 | the creation sign is zero exactly when the orbital is already occupied, and otherwise it is +1 or -1 |
| Signs.DesSign | fci/test/test_select_ci.py:371 | the annihilation sign is zero exactly when the orbital is empty, and otherwise it is +1 or -1 |
| Signs.CreDesSign | fci/test/test_select_ci.py:397 | the excitation sign is 1 for the number operator whatever the string, and for `a != i` it is zero exactly when `a` is occupied or `i` is empty, and otherwise +1 or -1 |
| Signs.CreatePairSwap | fci/test/test_select_ci.py:454-457 | creating the two orbitals in the other order flips the sign of the pair, which justifies the `(j, i, dest, -sign)` entry |
| Signs.ExciteSign | fci/test/test_select_ci.py:397 | the excitation sign of `a <- i` equals the sign of emptying `i` times the sign of then filling `a`, which ties the three sign helpers together |
| Sorted.SortDedup | fci/test/test_select_ci.py:335 | `sorted(set(xs))` is strictly ascending and has exactly the elements of `xs` |
| Sorted.Without | fci/test/test_select_ci.py:513 | the set difference keeps an element exactly when it is in the first list and not the second |
| Sorted.SortedUnique | fci/test/test_select_ci.py:335 | two strictly ascending lists with the same elements are equal, so `sorted(set(...))` is determined by the set alone |
| Space.Lookup | fci/test/test_select_ci.py:336 | a string has an address exactly when it is in the space; the address holds that string and no later position does |
| Space.LookupIff | fci/test/test_select_ci.py:377 | in a space without repeats, the address of a string is the one position that holds it |
| LinkTable.MakeRow | fci/test/test_select_ci.py:339-348 | a row has exactly the table width, its first `count` slots are the links in order, and the remaining slots are zero |
| LinkTable.PackPairInjective | fci/test/test_select_ci.py:415-424 | the triangular index of an orbital pair below `norb` lies below `norb*(norb+1)/2` and identifies the unordered pair |
| LinkTable.PackLowerInjective | fci/test/test_select_ci.py:487 | `i*(i-1)//2+j` with `j < i < norb` lies below `(norb-1)*norb/2` and identifies the pair |
| GenLink.DesInterSpec | fci/test/test_select_ci.py:330-335 | the one-hole intermediates are strictly ascending, and a string is one exactly when it is some space string with one occupied orbital below `norb` removed |
| GenLink.DesInterValid | fci/test/test_select_ci.py:330-335 | every one-hole intermediate fits in `norb` orbitals and carries `nelec - 1` electrons |
| GenLink.CreateEachSpec | fci/test/test_select_ci.py:341-348 | a row's entries are exactly the empty orbitals of the intermediate whose filling lands in the space, with that string's address and the creation sign |
| GenLink.DesRow | fci/test/test_select_ci.py:338-348 | the creations from one intermediate fit in the `norb - nelec + 1` slots of a row |
| GenLink.GenDesLinkstr | fci/test/test_select_ci.py:324-349 | no table exactly when `nelec < 1`; otherwise one row per intermediate, each of width `norb - nelec + 1` |
| GenLink.GenDesEntries | fci/test/test_select_ci.py:340-348 | an entry is listed exactly when it is `(0, i, d, cre_sign(i, str1))` with `d` the address of `str1` with `i` set, for an empty orbital `i` below `norb` whose filling lands in the space, and its sign is nonzero |
| GenLink.GenDesAscending | fci/test/test_select_ci.py:341-348 | a row lists its created orbitals in strictly ascending order |
| GenLink.GenDesReaches | fci/test/test_select_ci.py:330-348 | every space string and each of its occupied orbitals is reached: some intermediate has that orbital removed, and its row creates it again towards an address holding the string |
| GenLink.CreInterSpec | fci/test/test_select_ci.py:356-361 | the one-particle intermediates are strictly ascending, and a string is one exactly when it is some space string with one empty orbital below `norb` filled |
| GenLink.CreInterValid | fci/test/test_select_ci.py:356-361 | every one-particle intermediate fits in `norb` orbitals and carries `nelec + 1` electrons |
| GenLink.AnnihilateEachSpec | fci/test/test_select_ci.py:366-373 | a row's entries are exactly the occupied orbitals of the intermediate whose removal lands in the space, with that string's address and the annihilation sign |
| GenLink.CreRow | fci/test/test_select_ci.py:364-373 | the annihilations from one intermediate fit in the `nelec + 1` slots of a row |
| GenLink.GenCreLinkstr | fci/test/test_select_ci.py:351-374 | no table exactly when `nelec == norb`; otherwise one row per intermediate, each of width `nelec + 1` |
| GenLink.GenCreEntries | fci/test/test_select_ci.py:365-373 | an entry is listed exactly when it is `(i, 0, d, des_sign(i, str1))` with `d` the address of `str1` with orbital `i` emptied, for an occupied orbital `i` below `norb` whose removal lands in the space, and its sign is nonzero |
| GenLink.GenCreAscending | fci/test/test_select_ci.py:366-373 | a row lists its annihilated orbitals in strictly ascending order |
| GenLink.GenCreReaches | fci/test/test_select_ci.py:356-373 | every space string and each of its empty orbitals is reached: some intermediate has that orbital filled, and its row removes it again towards an address holding the string |
| CreDes.SinglesTo | fci/test/test_select_ci.py:393-398 | for a fixed created orbital `a`, the entries are exactly the occupied `i` whose excitation `i -> a` lands in the space, with that address and `cre_des_sign(a, i, str1)` |
| CreDes.OffDiagonal | fci/test/test_select_ci.py:392-398 | the off-diagonal entries are exactly the pairs (empty `a`, occupied `i`) whose excitation lands in the space, and there are at most `nvir * nelec` of them |
| CreDes.CreDesCapacity | fci/test/test_select_ci.py:378-379 | a string's diagonal and excitation entries fit in the `nelec + nelec*nvir` slots of its row |
| CreDes.CreDesRow | fci/test/test_select_ci.py:379-398 | a row has the table width and holds the diagonal entries followed by the excitations, zero-padded |
| CreDes.CreDesLinkstr | fci/test/test_select_ci.py:376-399 | one row per string of the space, each of width `nelec + nelec*(norb - nelec)` |
| CreDes.CreDesDiagonalFirst | fci/test/test_select_ci.py:388-391 | the first `nelec` slots are `(i, i, i0, 1)` for the occupied orbitals in ascending order, each occupied orbital appearing once and pointing at the row's own string |
| CreDes.CreDesOffDiagonal | fci/test/test_select_ci.py:392-398 | the entries after the diagonal are exactly the single excitations `a <- i` of the string that land in the space, with the target's address and a nonzero sign; they ascend in `(a, i)`, empty orbital first, and no orbital pair occurs twice in the row |
| CreDes.CreDesLinkstrTril | fci/test/test_select_ci.py:401-428 | one row per string of the space, each of width `nelec + nelec*(norb - nelec)` and zero after its valid entries |
| CreDes.CreDesTrilMatchesFull | fci/test/test_select_ci.py:401-428 | the tril table has the same shape and counts as the full one, and each slot is the full slot with `(a, i)` folded into the triangular index and the second field zero |
| DesDes.DesDesInterSpec | fci/test/test_select_ci.py:433-439 | the two-hole intermediates are strictly ascending, and a string is one exactly when it is some space string with two distinct occupied orbitals below `norb` removed |
| DesDes.DesDesInterValid | fci/test/test_select_ci.py:433-439 | every two-hole intermediate fits in `norb` orbitals and carries `nelec - 2` electrons |
| DesDes.DesDesCapacity | fci/test/test_select_ci.py:442-443 | the pair entries of one intermediate fit in the `(norb - nelec + 2)**2` slots of its row |
| DesDes.DesDesLinkstr | fci/test/test_select_ci.py:430-459 | one row per two-hole intermediate, each of width `(norb - nelec + 2)**2` |
| DesDes.DesDesAntisymmetric | fci/test/test_select_ci.py:447-458 | a row holds an even number of entries; each even slot creates `i` then `j` with `j < i`, and the next slot is the same pair swapped with the sign negated; the even slots ascend in `(i, j)`, `i` first |
| DesDes.DesDesEntries | fci/test/test_select_ci.py:444-458 | an entry is listed exactly when it creates two distinct empty orbitals below `norb` whose filling lands in the space, with that address and the two-creation sign, which is nonzero; no orbital pair occurs twice in the row |
| DesDes.DesDesLinkstrTril | fci/test/test_select_ci.py:461-489 | one row per two-hole intermediate, each of width `(norb - nelec + 2)**2` and zero after its valid entries |
| DesDes.DesDesTrilMatchesFull | fci/test/test_select_ci.py:461-489 | the tril row holds half as many entries as the full row, and tril slot `m` is full slot `2m` with `(i, j)` packed to `i*(i-1)//2+j` |
| Select.DoublesSpec | fci/test/test_select_ci.py:509-512 | the doubles of one single excitation are exactly the earlier occupied `j` and later empty `b` whose integral passes the cutoff |
| Select.StepSpec | fci/test/test_select_ci.py:504-512 | one `(i, a)` step adds nothing below the single cutoff; otherwise it adds the single and, when `i < nelec <= a`, the doubles that pass |
| Select.ProposalsSpec | fci/test/test_select_ci.py:493-512 | one string's proposals are exactly the singles and doubles that pass their cutoffs |
| Select.AllProposalsSpec | fci/test/test_select_ci.py:492-512 | the collected proposals are exactly those of some string in the space, weighted by that string's `civec_max` |
| Select.SelectStrs | fci/test/test_select_ci.py:491-514 | the selected strings are strictly ascending and none of them is already in the space |
| Select.SelectStrsSpec | fci/test/test_select_ci.py:491-514 | the result is strictly ascending and holds a string exactly when some space string proposes it and it is not already in the space |
| Select.ProposedValid | fci/test/test_select_ci.py:505-512 | every proposed string keeps the electron count and the orbital window of its source |
| Select.SelectValid | fci/test/test_select_ci.py:491-514 | from a valid space the selected strings form a valid space of new strings |
| Select.SelectSingleComplete | fci/test/test_select_ci.py:502-506 | a single excitation that passes its cutoff is selected exactly when it is not already in the space |
| Select.SelectDoubleComplete | fci/test/test_select_ci.py:502-512 | when `eri_pq_max` bounds the integrals and `civec_max` is nonnegative, a double `j < i < nelec <= a < b` that passes its cutoff is selected exactly when it is not already in the space |
| Grow.Merge | fci/test/test_select_ci.py:79-83 | the grown space is strictly ascending and holds exactly the old and added strings |
| Grow.MergeConverged | fci/test/test_select_ci.py:79-83 | adding only strings already present leaves a sorted space unchanged |
| Grow.MergeIdempotent | fci/test/test_select_ci.py:79-83 | adding the same strings twice grows the space no further |
| Grow.Enlarge | fci/test/test_select_ci.py:79-83 | the enlarged space is strictly ascending and keeps every string of the old space |
| Grow.EnlargeSpec | fci/test/test_select_ci.py:79-83 | one growth round gives a sorted valid space holding exactly the old strings and those some old string proposes |
| Grow.Embed | fci/test/test_select_ci.py:84 | the embedded matrix has one row per enlarged alpha string and one column per enlarged beta string |
| Grow.EmbedPlaces | fci/test/test_select_ci.py:84 | each old coefficient sits at the new positions of its alpha and beta strings, and every position with a new string holds zero |
| Grow.RestrictEmbed | fci/test/test_select_ci.py:84 | reading the old rows and columns out of the embedded matrix gives back the old coefficients |
| Golden.GoldenGrowth | fci/test/test_select_ci.py:79-83 | if the added strings are the listed new strings, growing `[7,11,21]` and `[7,11,13]` gives exactly the listed 17 and 18 strings |
| Golden.GoldenAddresses | fci/test/test_select_ci.py:82-84 | the starting alpha strings sit at rows 0, 1, 5 and the starting beta strings at columns 0, 1, 2 of the enlarged spaces |
| Golden.GoldenEmbedding | fci/test/test_select_ci.py:84 | the embedded matrix is 17 by 18, and its rows `[0,1,5]` and columns `[0,1,2]` hold the starting coefficients |

## Left out

- Integer widths: table entries are `int32` and the selector's result is an `int64` array, but the model uses unbounded `nat`/`int`. It therefore does not model two overflows. First, the address field and the row index of every table are bounded by the number of strings, not by `norb`, so a space of 2^31 or more strings overflows `int32`. Second, `select_strs` converts its strings to signed `int64`, so a string using orbital 63 or higher (`norb > 63`) does not fit, while the model returns it unchanged. The model matches the source for spaces of fewer than 2^31 strings with `norb <= 63`.
- `cistring.cre_sign`, `des_sign` and `cre_des_sign` are not part of this model; they are defined by the standard parity convention, so their exact bit-level agreement with the library is assumed rather than proved.
- Strings outside the orbital window or with the wrong electron count: the table builders are modelled only for spaces in which every string holds `nelec` electrons below `norb`. The tests guarantee this by building every space with `cistring.gen_strings4orblist(range(norb), nelec)` (lines 173, 187, 201 and 212) and then masking it. The source itself does not check it: its widths depend only on `norb` and `nelec`, and it never reads bits at or above `norb`, so it silently returns tables for other inputs that this model does not describe.
- CreDes.CreDesLinkstr: requires a space without repeats. The source sizes the table by `len(addrs)` but writes one row per list position. For `nelec >= 1` a repeated string therefore makes it index out of bounds. For `nelec == 0` the rows have width 0 and nothing is written, so the source returns a table with fewer rows than positions (for example `(1, 0, 4)` for `[0, 0]`); the model does not describe that case. Every space the tests pass is masked output of `gen_strings4orblist`, which has no repeats.
- CreDes.CreDesLinkstrTril: requires a space without repeats, for the same reason: it too sizes its table by `len(addrs)`. A repeated string makes it index out of bounds for `nelec >= 1`, and for `nelec == 0` the source returns a short zero-width table that the model does not describe.
- A short `civec_max`: `select_strs` is modelled only when `civec_max` is at least as long as the space; the source raises `IndexError` otherwise.
- Select.SelectDoubleComplete: completeness of doubles needs `eri_pq_max[a,i] >= |eri[a,i,b,j]|` and a nonnegative `civec_max`. The source relies on this but does not check it, so it is a hypothesis.
- The double-excitation gate compares orbital indices with `nelec` (`i < nelec and a >= nelec`) exactly as written. For strings other than the aufbau one, this is a heuristic window rather than an occupied/virtual split.
- The cutoff arithmetic is exact real arithmetic; floating-point rounding of `eri*ca > cutoff` is not modelled. The integrals are arbitrary functions, so their symmetry and their packed `ao2mo` storage are not modelled.
- `select_ci.enlarge_space`, `to_fci`, `from_fci`, `contract_2e`, the symmetry-adapted selector and the C kernels are not part of this model. Growing the space is modelled as `Grow.Enlarge` (merge with `select_strs`) and `Grow.Embed`, following what the regression test checks. The `ci_coeff_cutoff` pruning is not modelled. The per-string amplitude maxima (`civec_max`) are an input of the selector, not computed.
- Golden.GoldenGrowth: the strings the regression run adds depend on seeded `numpy.random` integrals, so they are a hypothesis of the lemma. That the 17 and 18 listed strings each hold three electrons in six orbitals is not proved.
- The floating-point energy, contraction, spin and Hamiltonian tests are numerical checks outside the string engine. Two methods are both named `test_des_linkstr`; the second (lines 210-219) replaces the first, so only its comparison of `gen_cre_linkstr` runs. The first method compares `gen_des_linkstr` with the production `select_ci.gen_des_linkstr` after zeroing its field 0 (lines 206-208). The second compares `gen_cre_linkstr` with the production `select_ci.gen_cre_linkstr` after zeroing its field 1 (lines 217-219). The production builders in `select_ci` are not part of this model, so the model states the tables' contents directly instead.
- `pyscf/pbc/cc/kintermediates_uhf.py` and `gto/basis/__init__.py` are unrelated to selected CI and are not modelled.
