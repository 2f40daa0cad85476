# chmd batch forms and ANI-1 routing, in Dafny

This project models the index bookkeeping of chmd, a Python/chainer package
for neural-network potentials of atomic systems.

- `chmd/utils/batchform.py` converts a batch of atomic systems between four
  layouts:
  - list form: one array per system;
  - parallel form: a padded `(n_batch, n_atoms)` rectangle plus a boolean
    `valid` mask;
  - flatten form: that rectangle collapsed to one axis, plus `valid` and the
    per-cell system number (the affiliation);
  - series form: all systems concatenated, plus the affiliation of every atom.
- `chmd/links/ani.py` builds the ANI-1 atomic environment vector (AEV).
  - Duos (atom pairs) are filtered by two cutoff radii.
  - Per-duo radial peaks are scattered into row `i2*E + ei[j2]`.
  - Per-trio angular peaks are scattered into row
    `i2[i3]*numnum + sym[ei[j2[i3]], ei[j2[j3]]]` and halved.
  - It also reads atomic energies out per system (series form) or masks
    them (flatten form).
- `chmd/models/ani.py` picks, for each atom, the output of the network of its
  element (`AtomWiseNN`). `ANI1` sums the atomic energies per cell and adds
  a linear shift.

Array elements are an abstract type `T`, or `real` where arithmetic is done.
numpy and chainer failures are values: `Result` is `Ok(value)` or
`Raise(exc)`, and `exc` is one of `IndexError`, `ValueError`,
`AssertionError` or `InvalidType`.

- `tmp[valid] = series` fills the true cells of the mask in row-major order. A
  series of length one is broadcast; any other length mismatch is a
  `ValueError`.
- `parallel_from_list` and `parallel_from_series` allocate an `array2`, and
  `MaskedAssign` fills it with a loop.
- `F.scatter_add` onto a zero seed is a fold of `np.add.at`:
  - a negative index wraps around;
  - an index outside `[-n, n)` raises `IndexError`;
  - `Scatter.ScatterRow` proves that the fold is a segmented sum.
- The physics (exponentials, cosines, the cosine cutoff) is left out. The
  radial peak of a distance is a function given as a parameter. The angular
  peak rows are given per trio, and the networks' outputs per element.

Modules:

- `Exceptions`, `Seqs`: results and sequence helpers.
- `SeriesForm`, `ParallelForm`, `FlattenForm`, `ListForm`: the four classes of
  `batchform.py`.
- `BatchLaws`: the round trips between the forms.
- `Scatter`: scatter-add and reshapes.
- `AniLinks`: `chmd/links/ani.py`.
- `AniModels`: `chmd/models/ani.py`.

## Model

| member | source | states |
|---|---|---|
| `ParallelForm.ValidFromListform` | chmd/utils/batchform.py:18-22 | No systems is a `ValueError` (max of an empty array). Otherwise: one row per system, width = longest system, cell (b,k) true exactly when k < len(L[b]), row counts = system lengths, total = atom count, and some row is full. |
| `ParallelForm.PrefixMaskCounts` | chmd/utils/batchform.py:22 | The mask `arange(w)[None,:] < counts[:,None]` has true-count `counts[b]` in row b, and `Sum(counts)` true cells in all. |
| `ParallelForm.ValidFromAffiliation` | chmd/utils/batchform.py:25-30 | `AssertionError` unless the distinct values are exactly `0..n-1`. `ValueError` for an empty affiliation. Otherwise row b is true exactly at k < #atoms of system b, and the total is the atom count. |
| `ParallelForm.ContiguousCounts` | chmd/utils/batchform.py:27-29 | For a contiguous affiliation: the unique counts sum to its length, and each is at most their max. |
| `ParallelForm.ContiguousWidth` | chmd/utils/batchform.py:29-30 | The mask of an affiliation is as wide as the largest multiplicity, which `parallel_from_series` uses for the buffer width. |
| `ParallelForm.MaskedAssign` | chmd/utils/batchform.py:38 | The in-place fill leaves the array equal to `Assigned(old grid, valid, s)`. |
| `ParallelForm.Assigned` | chmd/utils/batchform.py:38 | The value meaning of `tmp[valid] = s`: the result has the mask's shape; a true cell gets the element of its row-major rank among the true cells (s[0] when a length-1 series is broadcast); a false cell keeps the grid's value. `BatchLaws.AssignedCell` states the rank in closed form. |
| `ParallelForm.AssignRow` | chmd/utils/batchform.py:38 | One row of the fill. It advances the running true-count by that row's count, writes exactly that row's true cells, and leaves every other cell unchanged. |
| `ParallelForm.FilledFromList` | chmd/utils/batchform.py:33-39 | `IndexError` for an empty list (`listform[0]`); `ValueError` when the atom count does not fit the mask. Otherwise the mask's shape, with padding on every false cell. |
| `ParallelForm.ParallelFromList` | chmd/utils/batchform.py:33-39 | Allocates a fresh array and fills it. It fails exactly when `FilledFromList` fails, with the same exception; otherwise the array equals `FilledFromList`. |
| `ParallelForm.MaxMultiplicity` | chmd/utils/batchform.py:44-46 | `max(n_atoms)`: no affiliation value occurs more often, and for a non-empty affiliation some value occurs exactly that often. |
| `ParallelForm.FilledFromSeries` | chmd/utils/batchform.py:42-49 | An empty affiliation is a `ValueError` (max of nothing). A mask whose shape is not `(len(unique), max count)` is an `IndexError`; a series that does not fit is a `ValueError`. Otherwise padding on every false cell. |
| `ParallelForm.ParallelFromSeries` | chmd/utils/batchform.py:42-49 | The array version of `FilledFromSeries`: same failures, and on success a fresh array with the same contents. |
| `ParallelForm.AllClose2` | chmd/utils/batchform.py:62 | `np.allclose` on two masks. It raises exactly when the shapes do not broadcast, and equals `==` when the shapes agree. |
| `ParallelForm.CheckValid` | chmd/utils/batchform.py:61-62 | The assert loop, corrected: it passes exactly when every list's own mask equals `valid`. |
| `ParallelForm.FillAllFromList` | chmd/utils/batchform.py:63-64 | It succeeds exactly when every list's fill succeeds, the first failing fill raising. On success: one fill per list of `zip(lists, padding)`, each equal to `FilledFromList`. |
| `ParallelForm.FillAll` | chmd/utils/batchform.py:63-64 | Lists that fit the mask give `ZipLength` fills, the i-th being `FilledFromList(lists[i], valid, padding[i])`. |
| `ParallelForm.FillOwn` | chmd/utils/batchform.py:63-64 | A list whose atom count fits the mask fills without error, and the array read back is `FilledFromList`. |
| `ParallelForm.FromList` | chmd/utils/batchform.py:51-65 | Corrected `parallel_form.from_list`. It succeeds exactly when there is a list and every list has the first list's mask. It then returns that mask and, per pair of `zip(lists, padding)`, the fill of that list. |
| `ParallelForm.CheckValidAsWritten` | chmd/utils/batchform.py:61-62 | The as-written assert loop passes exactly when every list has a mask and `np.allclose` accepts it against `valid`; passing returns `True`. |
| `ParallelForm.ExactPassesAllClose2` | chmd/utils/batchform.py:61-62 | Lists that all have the mask `valid` pass the as-written loop, so it accepts everything the corrected loop accepts. |
| `ParallelForm.FillCheckedAsWritten` | chmd/utils/batchform.py:61-64 | The as-written loop and then the fills, for a known first mask. It succeeds exactly when the loop passes and every fill of `zip(lists, padding)` succeeds; on success the loop passed, and per pair the fill of that list. |
| `ParallelForm.FromListAsWritten` | chmd/utils/batchform.py:51-65 | `parallel_form.from_list` as written: `IndexError` for no lists. It succeeds exactly when the first list has a system and, with that list's mask, the loop and every fill succeed. On success, the first list's mask, which passed the as-written loop, and per pair of `zip(lists, padding)` the fill of that list. Its flaw is exhibited by `AllCloseDuplicatesSystem`. |
| `ParallelForm.AllCloseDuplicatesSystem` | chmd/utils/batchform.py:60-64 | As written, a one-system list passes next to a two-system list, and its single atom is copied into both systems. |
| `ParallelForm.BroadcastCheckPasses` | chmd/utils/batchform.py:61-62 | The as-written assert accepts a `(1,1)` mask against a `(2,1)` mask. |
| `ParallelForm.FromSeries` | chmd/utils/batchform.py:67-72 | `parallel_form.from_series`. It raises the mask's error when the affiliation has no valid mask. Otherwise it succeeds exactly when every series fits the mask, and each fill equals `FilledFromSeries`. |
| `ParallelForm.FillAllSeries` | chmd/utils/batchform.py:70-71 | The loop over `zip(series, padding)`. With a well-shaped mask it succeeds exactly when every series fits, and fails with `ValueError` otherwise. |
| `ParallelForm.OwnValidFills` | chmd/utils/batchform.py:33-39 | A non-empty list always fits its own mask. |
| `ParallelForm.OwnValidCount` | chmd/utils/batchform.py:20-22 | A list's own mask has exactly as many true cells as the list has atoms. |
| `SeriesForm.AffiliationsFromValid` | chmd/utils/batchform.py:115-118 | One entry per true cell, each entry a row number. The block of row b is b repeated `sum(valid[b])` times, starting after the earlier rows' counts. |
| `SeriesForm.AffiliationsFromListform` | chmd/utils/batchform.py:121-124 | An empty list is an `IndexError`. Otherwise one entry per atom, and system b's block is b repeated `len(L[b])` times, at the offset of the earlier systems. |
| `SeriesForm.SeriesFromListform` | chmd/utils/batchform.py:127-129 | An empty list is an `IndexError`. Otherwise the total length, with system b's atoms, unchanged and in order, at the offset of the earlier systems. |
| `SeriesForm.SelectedRowsRanks` | chmd/utils/batchform.py:133 | Row by row, the masked selection has one element per true cell, each in its row-major rank. |
| `SeriesForm.SeriesFromParallel` | chmd/utils/batchform.py:132-133 | `parallel[valid]`. A shape mismatch is an `IndexError`. Otherwise one element per true cell, in row-major rank order. |
| `SeriesForm.FromParallel` | chmd/utils/batchform.py:151-155 | `IndexError` exactly when some array does not have the mask's shape. Otherwise the affiliation of the mask, and each array's masked series. |
| `SeriesForm.AllClose` | chmd/utils/batchform.py:145-146 | `np.allclose` on two affiliations, entry by entry with `|x-y| <= 1e-8 + 1e-5*|y|` over the reals. It raises `ValueError` exactly when the lengths do not broadcast. Equal arrays are close. For equal lengths with every entry of the second below 100000 in size, it equals `==`. |
| `SeriesForm.CloseExact` | chmd/utils/batchform.py:145-146 | Below 100000 the relative tolerance is under one, so two integers are close exactly when they are equal. |
| `SeriesForm.AllCloseTolerance` | chmd/utils/batchform.py:145-146 | The tolerance lets neighbouring large values through: `np.allclose([100000], [100001])` holds. |
| `SeriesForm.CheckOneAsWritten` | chmd/utils/batchform.py:145-146 | One pass of the as-written assert: an empty list is an `IndexError` (`listform[0]`). It passes exactly when the list is non-empty and `np.allclose(aff, affiliations_from_listform(L))` holds, and a pass returns `True`. |
| `SeriesForm.CheckAllCloseAsWritten` | chmd/utils/batchform.py:144-146 | The as-written assert loop passes exactly when every list passes its own round (`CheckOneAsWritten`); passing returns `True`. |
| `SeriesForm.PassedNonEmpty` | chmd/utils/batchform.py:144-146 | Only lists whose every element is a non-empty list of systems pass the as-written loop. |
| `SeriesForm.ExactPassesAllClose` | chmd/utils/batchform.py:144-146 | Lists that all have the first list's affiliation pass the as-written loop, so it accepts everything the corrected loop accepts. |
| `SeriesForm.FromListAsWritten` | chmd/utils/batchform.py:136-148 | `series_form.from_list` as written: `IndexError` for no lists. It succeeds exactly when the first list has a system and the as-written loop passes against its affiliation. On success, the affiliation of the first list, which passed the as-written loop, and each list's own series. Its flaw is exhibited by `AllCloseLetsLengthsDiffer`. |
| `SeriesForm.CheckAffiliations` | chmd/utils/batchform.py:144-146 | The assert loop, corrected: it passes exactly when every list has the affiliation `aff`. |
| `SeriesForm.SeriesOfLists` | chmd/utils/batchform.py:147 | For lists sharing `aff`: one series per list, equal to its concatenation and as long as `aff`. |
| `SeriesForm.FromList` | chmd/utils/batchform.py:136-148 | Corrected `series_form.from_list`. It succeeds exactly when there is a list and all lists are non-empty with the first list's affiliation. It then returns that affiliation and each list's series, each as long as the affiliation. |
| `SeriesForm.AllCloseLetsLengthsDiffer` | chmd/utils/batchform.py:143-146 | As written, a one-atom list and a three-atom list pass together, giving an affiliation of length 1 beside a series of length 3. |
| `FlattenForm.FlatAffiliationAt` | chmd/utils/batchform.py:92-93 | Flat index `b*n_atoms + k` holds b. |
| `FlattenForm.FlatAffiliation` | chmd/utils/batchform.py:92-93 | The broadcast `arange(n_batch)[:, None]` flattened has `n_batch * n_atoms` entries. Their values are stated by `FlatAffiliationAt` and `FlatAffiliationQuotient`. |
| `FlattenForm.FlatAffiliationQuotient` | chmd/utils/batchform.py:92-93 | Flat index a holds `a / n_atoms`. |
| `FlattenForm.Reshape` | chmd/utils/batchform.py:89-90 | `reshape(n)` of a matrix. A size mismatch is a `ValueError`; otherwise flat index a holds cell `(a / cols, a % cols)`. |
| `FlattenForm.ValidAffiliationFromParallel` | chmd/utils/batchform.py:97-108 | Both outputs have length `n_batch*n_atoms`. Flat index a holds `valid[a / n_atoms][a % n_atoms]` and affiliation `a / n_atoms`. |
| `FlattenForm.FromParallel` | chmd/utils/batchform.py:79-94 | `ValueError` exactly when an array does not hold `n_batch*n_atoms` cells. Otherwise each array is reshaped row-major, and the mask and affiliation are those of `valid_affiliation_from_parallel`. |
| `FlattenForm.FlatSelectIsSeries` | chmd/utils/batchform.py:133 | Masking the flattened array with the flattened mask gives `series_from_parallel`. |
| `FlattenForm.FlatSelectIsAffiliation` | chmd/utils/batchform.py:105-107 | The flat affiliation masked by the flat mask is `affiliations_from_valid`. |
| `FlattenForm.FlattenThenMask` | chmd/utils/batchform.py:79-94 | Flattening and then masking gives exactly the series form and its affiliation. |
| `ListForm.SystemsOf` | chmd/utils/batchform.py:164 | `[s[aff == i] for i in range(n)]`. It raises `IndexError` when there is a system and the lengths differ. Otherwise system i is `s` masked by `aff == i`, holding as many atoms as i occurs. |
| `ListForm.FromSeries` | chmd/utils/batchform.py:161-164 | One list per series, each the `SystemsOf` of that series, with n the number of distinct affiliation values. A length mismatch raises. |
| `ListForm.RowsOf` | chmd/utils/batchform.py:169 | `[p[v] for p, v in zip(pa, valid)]`: a row whose length differs from its mask row raises. Otherwise row b is row b masked, with `sum(valid[b])` elements. |
| `ListForm.FromParallel` | chmd/utils/batchform.py:167-169 | One list per parallel array, each `RowsOf` that array. It raises exactly when one of them raises. |
| `BatchLaws.AssignedCell` | chmd/utils/batchform.py:38 | After `tmp[valid] = s`, true cell (b,k) holds s at the rank of (b,k) among the true cells. |
| `BatchLaws.AssignedRow` | chmd/utils/batchform.py:38 | Row b of the filled grid, masked, is the slice of s owned by row b. |
| `BatchLaws.AssignThenSelect` | chmd/utils/batchform.py:38 | Masked assignment followed by masked selection returns the series: `tmp[valid] = s; tmp[valid] == s`. |
| `BatchLaws.ValidAffiliationsAgree` | chmd/utils/batchform.py:117-124 | `affiliations_from_valid(valid_from_listform(L)) == affiliations_from_listform(L)`. |
| `BatchLaws.FilledRow` | chmd/utils/batchform.py:38 | For a mask whose row counts are the system lengths: the fill succeeds, and row b masked is system b. |
| `BatchLaws.OwnRow` | chmd/utils/batchform.py:33-39 | Filling L into its own mask and masking row b gives back system b. |
| `BatchLaws.ListParallelList` | chmd/utils/batchform.py:167-169 | `list_form.from_parallel` of `parallel_from_list(L, valid_from_listform(L), pad)` is L, for any padding. |
| `BatchLaws.ListParallelSeries` | chmd/utils/batchform.py:129-133 | `series_from_parallel` of `parallel_from_list(L, valid_from_listform(L), pad)` is `series_from_listform(L)`. |
| `BatchLaws.RowsThenConcat` | chmd/utils/batchform.py:169 | Concatenating the per-row selections of a parallel array gives its series form. |
| `BatchLaws.ListAffiliationValues` | chmd/utils/batchform.py:163 | The distinct values of a list's affiliation are exactly its non-empty systems. |
| `BatchLaws.SeriesListRoundTrip` | chmd/utils/batchform.py:161-164 | `from_series(series_from_listform(L), affiliations_from_listform(L))` returns L exactly when no system is empty. |
| `BatchLaws.SeriesListNonEmpty` | chmd/utils/batchform.py:161-164 | With no empty system, the series round trip returns L value for value. |
| `BatchLaws.SeriesListDropsEmpty` | chmd/utils/batchform.py:163 | An empty system makes `len(unique(aff))` smaller than the system count, so the round trip cannot return L. |
| `BatchLaws.SeriesListRoundTripAll` | chmd/utils/batchform.py:161-164 | The round trip for several lists with the same non-empty system sizes. |
| `BatchLaws.SeriesParallelAgree` | chmd/utils/batchform.py:42-49 | With non-empty systems, the mask of the affiliation is the mask of the list. `parallel_from_series` of the series then equals `parallel_from_list` of the list. |
| `BatchLaws.AffiliationOfNonEmpty` | chmd/utils/batchform.py:27-28 | The affiliation of a list of non-empty systems is contiguous (it passes the assert), and its unique counts are the system lengths. |
| `Scatter.ScatterAdd` | chmd/links/ani.py:117 | `F.scatter_add`: `IndexError` exactly when some index is outside `[-n, n)`. Otherwise the seed's shape. |
| `Scatter.ScatterRow` | chmd/links/ani.py:117 | Row `row` of the scatter is the seed row plus the sum, in input order, of every value whose (wrapped) index is `row`. |
| `Scatter.Untouched` | chmd/links/ani.py:117 | A row that no index reaches keeps its seed row. |
| `Scatter.RegroupBlock` | chmd/links/ani.py:118 | `reshape(n, k*w)` of an `(n*k, w)` matrix: block e of row a is row `a*k + e`. |
| `Scatter.Regroup` | chmd/links/ani.py:118 | `reshape(n, k*w)` of an `(n*k, w)` matrix has shape `(n, k*w)`. Its blocks are stated by `RegroupBlock`. |
| `Scatter.Halve` | chmd/links/ani.py:214 | `/ 2` keeps the shape and halves every entry. |
| `AniLinks.Kept` | chmd/links/ani.py:54-58 | The positions kept by a mask: one per true entry, each inside the input and masked true. |
| `AniLinks.InCutoff` | chmd/links/ani.py:52-53 | `rij_full.data < rc`: the mask is true exactly at the duos inside the cutoff. |
| `AniLinks.CutoffFilter` | chmd/links/ani.py:52-58 | `rij`, `i2`, `j2` and `s2` are filtered by the same mask. Every kept duo is inside the cutoff, every duo inside it is kept, and the kept positions increase (an order-preserving subsequence). |
| `AniLinks.Radial` | chmd/links/ani.py:115-118 | `IndexError` exactly when some target is outside `[-n_solo*E, n_solo*E)`. Otherwise shape `(n_solo, E*w)`. |
| `AniLinks.RadialTargetsInRange` | chmd/links/ani.py:115-117 | With `0 <= i2 < n_solo` and `0 <= ei < E`, every target is in `[0, n_solo*E)`, and the radial AEV succeeds. |
| `AniLinks.RadialRow` | chmd/links/ani.py:117 | The duos scattered to row `a*E + e` are exactly those with `i2 == a` and `ei[j2] == e`. |
| `AniLinks.RadialBlock` | chmd/links/ani.py:115-118 | Block e of atom a's radial AEV is the sum of the peak rows of the duos centred on a whose neighbour has element e. |
| `AniLinks.RadialEmptyBlock` | chmd/links/ani.py:115-118 | An (atom, element) block without such duos is all zero. |
| `AniLinks.SymmetricDuoIndex` | chmd/links/ani.py:121-128 | `ValueError` for an empty table (max of nothing). `IndexError` when `unique.max() < len(unique)` (indexing past `arange(max)`). Otherwise a square table of the same size. |
| `AniLinks.Symmetrised` | chmd/links/ani.py:126 | `np.min([di, di.T], axis=0)` of a square table is square and symmetric, and entry (a,b) is the smaller of `di[a][b]` and `di[b][a]`. |
| `AniLinks.DuoIndexRanks` | chmd/links/ani.py:126-128 | The table is symmetric. Two entries are equal exactly when the symmetrised entries are equal, and ordered exactly as those are (a dense ranking). |
| `AniLinks.DuoIndexBelow` | chmd/links/ani.py:127-128 | Every entry lies in `[0, len(unique))`. |
| `AniLinks.DuoValuesCount` | chmd/links/ani.py:125-127 | `min(di, di.T)` of an E x E table has at most `E*(E+1)//2` distinct values, one per unordered pair, so `len(unique)` never exceeds `numnum`. |
| `AniLinks.DuoSlotsInRange` | chmd/links/ani.py:127-128 | A successful `symmetric_duo_index` of an E x E table has every entry in `[0, E*(E+1)//2)`: the pair slots the angular seed of line 209 reserves. This is the slot premise of `AngularTargetsInRange` and `AngularBlock`. |
| `AniLinks.NumNumFormula` | chmd/links/ani.py:208 | `numnum = E*(E+1)//2`, agreeing with its recursive definition. |
| `AniLinks.Angular` | chmd/links/ani.py:206-214 | `IndexError` exactly when an element code falls outside `sym`, or a target falls outside `[-n_solo*numnum, n_solo*numnum)`. Otherwise shape `(n_solo, numnum*n1)`. |
| `AniLinks.TrioSwap` | chmd/links/ani.py:210-211 | With a symmetric table and a shared centre, swapping a trio's two duos keeps its target. |
| `AniLinks.AngularSwap` | chmd/links/ani.py:210-214 | With a symmetric table and shared centres, swapping `i3` and `j3` leaves the angular AEV unchanged. |
| `AniLinks.AngularTargetsInRange` | chmd/links/ani.py:209-213 | With centres in range and table entries in `[0, numnum)`, every target is in `[0, n_solo*numnum)`, and the angular AEV succeeds. |
| `AniLinks.AngularRow` | chmd/links/ani.py:213 | The trios scattered to row `a*numnum + p` are exactly those centred on a whose element pair has slot p. |
| `AniLinks.TrioTarget` | chmd/links/ani.py:210-213 | No contract: the scatter row `i2[i3]*numnum + sym[ei[j2[i3]], ei[j2[j3]]]` of one trio. Its meaning is stated by `AngularRow` and `TrioSwap`. |
| `AniLinks.AngularBlock` | chmd/links/ani.py:206-214 | Block p of atom a's angular AEV is half the sum of the peak rows of its trios with pair slot p. |
| `AniLinks.RadialStage` | chmd/links/ani.py:52-55 | The radial AEV of the duos inside the radial cutoff has shape `(n_solo, E*w)`. |
| `AniLinks.AngularStage` | chmd/links/ani.py:53-62 | The angular AEV of the duos inside the angular cutoff has shape `(n_solo, numnum*n1)`. |
| `AniLinks.Aev` | chmd/links/ani.py:52-63 | `ANI1AEV.__call__` succeeds exactly when both stages do, and a radial failure is raised first. Each row is the radial row followed by the angular row. |
| `AniLinks.SeriesEnergy` | chmd/links/ani.py:226-232 | `IndexError` exactly when the output has no column 0 or some affiliation is outside `[-n_batch, n_batch)`. Otherwise one energy per system. |
| `AniLinks.SeriesEnergyOfSystem` | chmd/links/ani.py:230-231 | The energy of system b is the total of column 0 over exactly the atoms affiliated with b. |
| `AniLinks.SeriesEnergyEmpty` | chmd/links/ani.py:230-231 | A system without atoms has energy 0. |
| `AniLinks.FlattenEnergy` | chmd/links/ani.py:258-263 | Corrected flatten-form read-out: `AssertionError` unless there is exactly one feature. Otherwise the input's shape. |
| `AniLinks.FlattenEnergyMasks` | chmd/links/ani.py:258-263 | Valid rows are kept and invalid rows zeroed. Masking the result equals masking the input, and the total energy is the total over the valid atoms. |
| `AniLinks.FlattenEnergyAsWritten` | chmd/links/ani.py:261-262 | `F.where(valid, atomic_all, zeros)` as written: `AssertionError` exactly when `n_features != 1` (line 261); otherwise the `(n,)` mask broadcasts against `(n,1)` to an `(n,n)` result. |
| `AniLinks.FlattenWhereBroadcasts` | chmd/links/ani.py:262 | On two atoms with one valid, the as-written result is `[[1,0],[2,0]]`; the corrected one is `[[1],[0]]`. |
| `AniModels.AtomWise` | chmd/models/ani.py:40-48 | `F.concat` of no outputs, or of outputs of different widths, is `InvalidType`. Otherwise the result has the shape `(n_atoms, n_out)` of one network's output. |
| `AniModels.OneContributor` | chmd/models/ani.py:45 | Exactly one network is selected for a code in `0..n-1`, and none otherwise. |
| `AniModels.OneHotSum` | chmd/models/ani.py:47-48 | Summing the rows kept by a one-network condition gives that network's row, or the zero row. |
| `AniModels.Condition` | chmd/models/ani.py:45 | Column a of `arange(n)[:, None] == e[None, :]` is true exactly at network `e[a]`. A code outside `0..n-1` selects none: there is no wrap-around. |
| `AniModels.Where` | chmd/models/ani.py:46-47 | `F.where(condition, out, zeros)` along the network axis keeps the shape, keeps the selected rows and zeroes the others. |
| `AniModels.AtomWiseSelects` | chmd/models/ani.py:40-48 | Row a is row a of the output of network `e[a]`, or all zero when `e[a]` names no network (e.g. padding -1). |
| `AniModels.AtomWiseColumn` | chmd/models/ani.py:40-48 | Column 0 of the result is each atom's energy from its own element's network, or 0 for an atom whose code names no network. |
| `AniModels.AtomEnergies` | chmd/models/ani.py:43-48 | One atomic energy per atom: its own network's column 0, or 0 when the code names no network. `AtomWiseColumn` shows it is column 0 of `AtomWiseNN.forward`. |
| `AniModels.Ani1Energy` | chmd/models/ani.py:62-69 | Succeeds exactly when there are networks of one positive width and every `i1` is inside `[-n_cells, n_cells)`. Concat failures are `InvalidType`, other failures `IndexError`. On success it returns one energy per cell. |
| `AniModels.Ani1CellEnergy` | chmd/models/ani.py:66-69 | The energy of cell b is the total atomic energy of exactly the atoms affiliated with b, plus the cell's linear shift. |
| `AniModels.Ani1EmptyCell` | chmd/models/ani.py:66-69 | A cell without atoms gets just its linear shift. |

## Left out

- Floating-point maths: the exponential, cosine and arccosine peaks, the
  `0.95` scaling, `CosineCutoff`, and the `ShfR`/`ShfA`/`ShfZ` tables.
  - The radial peak is a function parameter `peak: real -> Row`, and the
    angular peak rows are an input matrix.
  - Reals are exact, so rounding and `dtype` are not modelled.
- Helpers whose source is not part of this model become inputs:
  - `distance`: the rows `rij`;
  - `distance_angle` and `neighbor_trios`: the trio indices `i3`/`j3` and their peaks;
  - `duo_index`: the table `di`, taken to be square (`AniLinks.SymmetricDuoIndex`
    requires that; a non-square table would make `np.min([di, di.T])` fail on
    a ragged stack, which `duo_index(num_elements)` never produces);
  - `AtomWiseParamNN`, `AtomNN` and the chainer layers: the networks' outputs;
  - `EnergyShifter`: the vector `linear`, taken to have one entry per cell.
- Because `duo_index` is an input, a concrete element count for which it
  makes `symmetric_duo_index` raise cannot be stated.
- `repeat_interleave` (chmd.math.xp) is not part of this model. It is taken to
  repeat value b `counts[b]` times.
- Index arrays from the neighbour search (`i2`, `j2`, `i3`, `j3`) are
  preconditions: they index the atoms or duos. Element codes and affiliations
  are data and follow numpy's indexing rules.
- `AtomWiseNN`: every network output has one row per element code
  (`len(e) == n_atoms`), which is what lets line 47 broadcast.
- `ANI1.forward`: the AEV (line 64) is not recomputed. The networks' outputs
  are given directly.
- `AniLinks.DuoIndexBelow`: it bounds the dense ranks by `len(unique)`, but
  does not prove that every rank below that bound is used.
- `F.concat` in `ANI1AEV.__call__` cannot see a row-count mismatch: both
  stages have one row per atom by construction.
- Automatic differentiation, `Variable` wrapping, `chainer.config.dtype`,
  `get_array_module` backend dispatch, and any GPU or parallel scatter: these
  are library and backend concerns.
- Model fitting with sklearn `LinearRegression` is not part of this model.
- `chmd/database/vasprun.py` is XML file input. Its only logic is a
  convergence filter and a float matrix product.
- Numpy's general n-dimensional shapes: trailing dimensions are folded into
  the element type `T` (batch forms) or into one row (AEV). Integer widths are
  unbounded, since index arithmetic in numpy's int64 does not overflow at
  these sizes.

## Findings

| source | as written | input that shows it | evidently intended | confidence | as-written member | corrected member |
|---|---|---|---|---|---|---|
| chmd/utils/batchform.py:143-146 | `assert np.allclose(affiliations, ...)` broadcasts arrays of length 1 | lists `[[[10]], [[20, 21, 22]]]`: affiliations `[0]` and `[0, 0, 0]` pass, and the series lengths 1 and 3 disagree | reject lists whose affiliations differ in length or value | medium, not executed | SeriesForm.FromListAsWritten | SeriesForm.FromList |
| chmd/utils/batchform.py:60-62 | `assert np.allclose(valid, ...)` broadcasts a `(1,1)` mask against `(2,1)` | lists `[[[1], [2]], [[3]]]` with padding `[0, 0]`: the second list's one atom is copied into both systems | reject lists whose masks differ in shape or value | medium, not executed | ParallelForm.FromListAsWritten | ParallelForm.FromList |
| chmd/links/ani.py:262 | `F.where(valid, atomic_all, zeros)` with `valid` of shape `(n,)` and `atomic_all` of shape `(n,1)` | `atomic_all = [[1.0], [2.0]]`, `valid = [true, false]`: broadcasting gives `[[1,0],[2,0]]` | keep valid rows and zero the others, `[[1],[0]]` (mask `valid[:, None]`) | low (depends on the chainer version's broadcasting), not executed | AniLinks.FlattenEnergyAsWritten | AniLinks.FlattenEnergy |
