/** The routing part of the ANI-1 atomic environment vector (AEV): which
    duos (ordered atom pairs) survive the cutoffs, which output row and
    column block every radial peak (per duo) and angular peak (per trio)
    is scattered into, the symmetric table of unordered element pairs, the
    column order of the full AEV, and the two energy read-outs.  Distances,
    angles and the peak values themselves are inputs: the radial peak is a
    function of the distance, the angular peaks are given per trio. */
module AniLinks {
  import opened Exceptions
  import opened Seqs
  import opened FlattenForm
  import opened Scatter

  // ------------------------------------------------- duo and atom indices

  /** Every entry indexes one of n rows (`0 <= x < n`), as the neighbour
      search guarantees for atom and duo indices. */
  predicate Indices(x: seq<int>, n: nat)
  {
    forall d :: 0 <= d < |x| ==> 0 <= x[d] < n
  }

  /** Every element code is one of the E species. */
  predicate Codes(ei: seq<int>, e: nat)
  {
    forall a :: 0 <= a < |ei| ==> 0 <= ei[a] < e
  }

  // --------------------------------------------- cutoff filtering of duos

  /** `rij < rc`: the duos inside the cutoff sphere. */
  function InCutoff(rij: seq<real>, rc: real): (m: seq<bool>)
    ensures |m| == |rij| && forall d :: 0 <= d < |rij| ==> (m[d] <==> rij[d] < rc)
  {
    seq(|rij|, d requires 0 <= d < |rij| => rij[d] < rc)
  }

  /** The positions of the true cells of a mask, in order. */
  function Kept(m: seq<bool>): (p: seq<int>)
    ensures |p| == CountTrue(m)
    ensures forall t :: 0 <= t < |p| ==> 0 <= p[t] < |m| && m[p[t]]
  {
    if |m| == 0 then []
    else Kept(m[..|m| - 1]) + (if m[|m| - 1] then [|m| - 1] else [])
  }

  // ------------------------------------------------------------- radial

  /** `flat_peaks` of the radial AEV: `peak` stands for the flattened
      `n_eta * n_shf` Gaussian-times-cutoff values of one distance. */
  function RadialPeaks(rij: seq<real>, peak: real -> Row, w: nat): (r: seq<Row>)
    requires forall x :: |peak(x)| == w
    ensures |r| == |rij| && IsMatrix(r, w)
    ensures forall d :: 0 <= d < |rij| ==> r[d] == peak(rij[d])
  {
    var r := seq(|rij|, d requires 0 <= d < |rij| => peak(rij[d]));
    assert forall d :: 0 <= d < |r| ==> |r[d]| == w by {
      forall d | 0 <= d < |r|
        ensures |r[d]| == w
      {
        var x := rij[d];
        assert r[d] == peak(x);
        assert |peak(x)| == w;
      }
    }
    r
  }

  /** `i2 * num_elements + ei[j2]`: the centre atom's row block, shifted to
      the neighbour's element. */
  function RadialTargets(ei: seq<int>, i2: seq<int>, j2: seq<int>, e: nat): (t: seq<int>)
    requires |i2| == |j2| && Indices(j2, |ei|)
    ensures |t| == |i2|
    ensures forall d :: 0 <= d < |i2| ==> t[d] == i2[d] * e + ei[j2[d]]
  {
    seq(|i2|, d requires 0 <= d < |i2| => i2[d] * e + ei[j2[d]])
  }

  /** `ANI1Radial.__call__`: scatter every duo's peaks into a zero seed of
      `n_solo * E` rows and reshape to `(n_solo, E * n_eta * n_shf)`. */
  function Radial(rij: seq<real>, peak: real -> Row, w: nat, ei: seq<int>, i2: seq<int>, j2: seq<int>, e: nat): (r: Result<seq<Row>>)
    requires |rij| == |i2| == |j2| && Indices(j2, |ei|) && forall x :: |peak(x)| == w
    ensures r.Ok? <==> forall d :: 0 <= d < |i2| ==> InBounds(i2[d] * e + ei[j2[d]], |ei| * e)
    ensures r.Raise? ==> r.exc == IndexError
    ensures r.Ok? ==> |r.value| == |ei| && IsMatrix(r.value, e * w)
  {
    var s := ScatterAdd(ZeroMatrix(|ei| * e, w), w, RadialTargets(ei, i2, j2, e), RadialPeaks(rij, peak, w));
    if s.Raise? then Raise(s.exc) else Ok(Regroup(s.value, |ei|, e, w))
  }

  /** The duos of centre atom a whose neighbour has element code e. */
  function Duos(ei: seq<int>, i2: seq<int>, j2: seq<int>, a: int, e: int): (m: seq<bool>)
    requires |i2| == |j2| && Indices(j2, |ei|)
    ensures |m| == |i2|
    ensures forall d :: 0 <= d < |i2| ==> (m[d] <==> i2[d] == a && ei[j2[d]] == e)
  {
    seq(|i2|, d requires 0 <= d < |i2| => i2[d] == a && ei[j2[d]] == e)
  }

  // ------------------------------------------- symmetric duo index table

  /** `np.min([di, di.T], axis=0)`. */
  function Symmetrised(di: seq<seq<int>>): (m: seq<seq<int>>)
    requires IsMatrix(di, |di|)
    ensures |m| == |di| && IsMatrix(m, |di|)
    ensures forall a, b :: 0 <= a < |di| && 0 <= b < |di| ==>
      m[a][b] <= di[a][b] && m[a][b] <= di[b][a] && (m[a][b] == di[a][b] || m[a][b] == di[b][a]) && m[a][b] == m[b][a]
  {
    seq(|di|, a requires 0 <= a < |di| =>
      seq(|di|, b requires 0 <= b < |di| => if di[a][b] <= di[b][a] then di[a][b] else di[b][a]))
  }

  /** The largest entry, `np.max` of a non-empty array. */
  function MaxInt(c: seq<int>): (r: int)
    requires |c| > 0
    ensures forall i :: 0 <= i < |c| ==> c[i] <= r
    ensures exists i :: 0 <= i < |c| && c[i] == r
  {
    if |c| == 1 then c[0]
    else
      var m := MaxInt(c[..|c| - 1]);
      assert forall i :: 0 <= i < |c| - 1 ==> c[..|c| - 1][i] == c[i];
      if c[|c| - 1] > m then c[|c| - 1] else m
  }

  /** Position of x in the sorted distinct values u, the `inverse` of
      `np.unique`: the number of distinct values below x. */
  function DenseRank(x: int, u: set<int>): nat
  {
    |set y | y in u && y < x|
  }

  /** `symmetric_duo_index(di)`: the dense rank of every entry of
      `min(di, di.T)` among its distinct values, read through
      `arange(unique.max())`.  An empty table has no maximum (ValueError);
      a maximum below the number of distinct values leaves some rank
      outside the arange (IndexError). */
  function SymmetricDuoIndex(di: seq<seq<int>>): (r: Result<seq<seq<int>>>)
    requires IsMatrix(di, |di|)
    ensures r.Raise? <==> |di| == 0 || MaxInt(Concat(Symmetrised(di))) < |Values(Concat(Symmetrised(di)))|
    ensures |di| == 0 ==> r == Raise(ValueError)
    ensures |di| > 0 && r.Raise? ==> r.exc == IndexError
    ensures r.Ok? ==> |r.value| == |di| && IsMatrix(r.value, |di|)
  {
    var m := Symmetrised(di);
    if |di| == 0 then Raise(ValueError)
    else
      MatrixSlotAt(m, |di|, 0, 0);
      var flat := Concat(m);
      var u := Values(flat);
      if MaxInt(flat) < |u| then Raise(IndexError)
      else Ok(seq(|di|, a requires 0 <= a < |di| =>
        seq(|di|, b requires 0 <= b < |di| => DenseRank(m[a][b], u) as int)))
  }

  predicate Symmetric(sym: seq<seq<int>>)
    requires IsMatrix(sym, |sym|)
  {
    forall a, b :: 0 <= a < |sym| && 0 <= b < |sym| ==> sym[a][b] == sym[b][a]
  }

  // ------------------------------------------------------------ angular

  /** The number of unordered pairs of e species, counted one new species
      at a time; `NumNumFormula` shows it is `e * (e + 1) // 2`. */
  function NumNum(e: nat): nat
  {
    if e == 0 then 0 else NumNum(e - 1) + e
  }

  /** numpy's `sym[x, y]` is defined for both codes of every trio. */
  predicate PairCodes(sym: seq<seq<int>>, ei: seq<int>, i2: seq<int>, j2: seq<int>, i3: seq<int>, j3: seq<int>)
    requires |i2| == |j2| && Indices(j2, |ei|) && |i3| == |j3| && Indices(i3, |i2|) && Indices(j3, |i2|)
  {
    forall t :: 0 <= t < |i3| ==> InBounds(ei[j2[i3[t]]], |sym|) && InBounds(ei[j2[j3[t]]], |sym|)
  }

  /** `sym[x, y]` for codes in range; negative codes count from the end. */
  function PairSlot(sym: seq<seq<int>>, x: int, y: int): int
    requires IsMatrix(sym, |sym|) && InBounds(x, |sym|) && InBounds(y, |sym|)
  {
    sym[Wrap(x, |sym|)][Wrap(y, |sym|)]
  }

  /** The scatter row of the trio made of duos p and q:
      `i2[p] * numnum + sym[ei[j2[p]], ei[j2[q]]]`. */
  function TrioTarget(sym: seq<seq<int>>, ei: seq<int>, i2: seq<int>, j2: seq<int>, nn: nat, p: nat, q: nat): int
    requires IsMatrix(sym, |sym|) && |i2| == |j2| && Indices(j2, |ei|) && p < |i2| && q < |i2|
    requires InBounds(ei[j2[p]], |sym|) && InBounds(ei[j2[q]], |sym|)
  {
    i2[p] * nn + PairSlot(sym, ei[j2[p]], ei[j2[q]])
  }

  function AngularTargets(sym: seq<seq<int>>, ei: seq<int>, i2: seq<int>, j2: seq<int>, i3: seq<int>, j3: seq<int>, nn: nat): (t: seq<int>)
    requires IsMatrix(sym, |sym|) && |i2| == |j2| && Indices(j2, |ei|)
    requires |i3| == |j3| && Indices(i3, |i2|) && Indices(j3, |i2|) && PairCodes(sym, ei, i2, j2, i3, j3)
    ensures |t| == |i3|
    ensures forall k :: 0 <= k < |i3| ==> t[k] == TrioTarget(sym, ei, i2, j2, nn, i3[k], j3[k])
  {
    seq(|i3|, k requires 0 <= k < |i3| => TrioTarget(sym, ei, i2, j2, nn, i3[k], j3[k]))
  }

  /** The requirements of the angular stage on its index arrays. */
  predicate AngularShape(peaks: seq<Row>, w: nat, ei: seq<int>, i2: seq<int>, j2: seq<int>, i3: seq<int>, j3: seq<int>, sym: seq<seq<int>>)
  {
    IsMatrix(peaks, w) && |peaks| == |i3| == |j3| && |i2| == |j2| && Indices(j2, |ei|) &&
    Indices(i3, |i2|) && Indices(j3, |i2|) && IsMatrix(sym, |sym|)
  }

  /** `ANI1Angular.__call__`: look up the unordered element pair of every
      trio, scatter its peaks into a zero seed of `n_solo * numnum` rows,
      reshape to `(n_solo, numnum * n1)` and halve. */
  function Angular(peaks: seq<Row>, w: nat, ei: seq<int>, i2: seq<int>, j2: seq<int>, i3: seq<int>, j3: seq<int>, e: nat, sym: seq<seq<int>>): (r: Result<seq<Row>>)
    requires AngularShape(peaks, w, ei, i2, j2, i3, j3, sym)
    ensures r.Ok? <==> (PairCodes(sym, ei, i2, j2, i3, j3) &&
      forall k :: 0 <= k < |i3| ==> InBounds(TrioTarget(sym, ei, i2, j2, NumNum(e), i3[k], j3[k]), |ei| * NumNum(e)))
    ensures r.Raise? ==> r.exc == IndexError
    ensures r.Ok? ==> |r.value| == |ei| && IsMatrix(r.value, NumNum(e) * w)
  {
    var nn := NumNum(e);
    if !PairCodes(sym, ei, i2, j2, i3, j3) then Raise(IndexError)
    else
      var s := ScatterAdd(ZeroMatrix(|ei| * nn, w), w, AngularTargets(sym, ei, i2, j2, i3, j3, nn), peaks);
      if s.Raise? then Raise(s.exc) else Ok(Halve(Regroup(s.value, |ei|, nn, w)))
  }

  /** The trios of centre atom a whose element pair has slot p. */
  function Trios(sym: seq<seq<int>>, ei: seq<int>, i2: seq<int>, j2: seq<int>, i3: seq<int>, j3: seq<int>, a: int, p: int): (m: seq<bool>)
    requires IsMatrix(sym, |sym|) && |i2| == |j2| && Indices(j2, |ei|)
    requires |i3| == |j3| && Indices(i3, |i2|) && Indices(j3, |i2|) && PairCodes(sym, ei, i2, j2, i3, j3)
    ensures |m| == |i3|
    ensures forall k :: 0 <= k < |i3| ==>
      (m[k] <==> i2[i3[k]] == a && PairSlot(sym, ei[j2[i3[k]]], ei[j2[j3[k]]]) == p)
  {
    seq(|i3|, k requires 0 <= k < |i3| => i2[i3[k]] == a && PairSlot(sym, ei[j2[i3[k]]], ei[j2[j3[k]]]) == p)
  }

  /** Every looked-up pair slot is one of the `numnum` column blocks. */
  predicate SlotsInRange(sym: seq<seq<int>>, nn: nat)
    requires IsMatrix(sym, |sym|)
  {
    forall a, b :: 0 <= a < |sym| && 0 <= b < |sym| ==> 0 <= sym[a][b] < nn
  }

  // ---------------------------------------------------------- full AEV

  /** The radial stage of `ANI1AEV.__call__` on the duos inside the radial cutoff. */
  function RadialStage(rij: seq<real>, rc: real, peak: real -> Row, w: nat, ei: seq<int>, i2: seq<int>, j2: seq<int>, e: nat): (r: Result<seq<Row>>)
    requires |rij| == |i2| == |j2| && Indices(j2, |ei|) && forall x :: |peak(x)| == w
    ensures r.Ok? ==> |r.value| == |ei| && IsMatrix(r.value, e * w)
  {
    var m := InCutoff(rij, rc);
    SelectedIndices(j2, m, |ei|);
    Radial(Select(rij, m), peak, w, ei, Select(i2, m), Select(j2, m), e)
  }

  /** The angular stage of `ANI1AEV.__call__` on the duos inside the angular
      cutoff; the trios `(i3, j3)` index those duos (the neighbour-trio
      search and the per-trio peaks are inputs). */
  function AngularStage(rij: seq<real>, rc: real, peaks: seq<Row>, w: nat, ei: seq<int>, i2: seq<int>, j2: seq<int>, i3: seq<int>, j3: seq<int>, e: nat, sym: seq<seq<int>>): (r: Result<seq<Row>>)
    requires |rij| == |i2| == |j2| && Indices(j2, |ei|) && IsMatrix(peaks, w) && |peaks| == |i3| == |j3|
    requires Indices(i3, CountTrue(InCutoff(rij, rc))) && Indices(j3, CountTrue(InCutoff(rij, rc))) && IsMatrix(sym, |sym|)
    ensures r.Ok? ==> |r.value| == |ei| && IsMatrix(r.value, NumNum(e) * w)
  {
    var m := InCutoff(rij, rc);
    SelectedIndices(j2, m, |ei|);
    Angular(peaks, w, ei, Select(i2, m), Select(j2, m), i3, j3, e, sym)
  }

  /** `F.concat([g1, g2], axis=1)`: every row of g1 followed by the same row of g2. */
  predicate Beside(r: seq<Row>, g1: seq<Row>, g2: seq<Row>)
  {
    |r| == |g1| == |g2| && forall a :: 0 <= a < |r| ==> r[a] == g1[a] + g2[a]
  }

  /** `ANI1AEV.__call__`: the radial AEV columns, then the angular ones,
      row by row; the radial stage's error is raised first. */
  function Aev(rij: seq<real>, rcRad: real, rcAng: real, peak: real -> Row, wr: nat, ei: seq<int>, i2: seq<int>, j2: seq<int>, e: nat,
               angPeaks: seq<Row>, wa: nat, i3: seq<int>, j3: seq<int>, sym: seq<seq<int>>): (r: Result<seq<Row>>)
    requires |rij| == |i2| == |j2| && Indices(j2, |ei|) && forall x :: |peak(x)| == wr
    requires IsMatrix(angPeaks, wa) && |angPeaks| == |i3| == |j3| && IsMatrix(sym, |sym|)
    requires Indices(i3, CountTrue(InCutoff(rij, rcAng))) && Indices(j3, CountTrue(InCutoff(rij, rcAng)))
    ensures var gr := RadialStage(rij, rcRad, peak, wr, ei, i2, j2, e);
      var ga := AngularStage(rij, rcAng, angPeaks, wa, ei, i2, j2, i3, j3, e, sym);
      (r.Ok? <==> gr.Ok? && ga.Ok?) &&
      (gr.Raise? ==> r == gr) &&
      (r.Ok? ==> Beside(r.value, gr.value, ga.value))
  {
    var gr := RadialStage(rij, rcRad, peak, wr, ei, i2, j2, e);
    var ga := AngularStage(rij, rcAng, angPeaks, wa, ei, i2, j2, i3, j3, e, sym);
    if gr.Raise? then gr
    else if ga.Raise? then ga
    else Ok(seq(|ei|, a requires 0 <= a < |ei| => gr.value[a] + ga.value[a]))
  }

  // ------------------------------------------------------ energy read-outs

  /** `ANI1AEV2EnergySerieseForm.forward` after the networks: scatter the
      atomic outputs onto `zeros((n_batch, n_out))` by affiliation i1 and
      read column 0.  A zero-width output has no column 0 (IndexError). */
  function SeriesEnergy(atomic: seq<Row>, f: nat, i1: seq<int>, nb: nat): (r: Result<seq<real>>)
    requires IsMatrix(atomic, f) && |i1| == |atomic|
    ensures r.Ok? <==> f > 0 && forall a :: 0 <= a < |i1| ==> InBounds(i1[a], nb)
    ensures r.Raise? ==> r.exc == IndexError
    ensures r.Ok? ==> |r.value| == nb
  {
    var s := ScatterAdd(ZeroMatrix(nb, f), f, i1, atomic);
    if s.Raise? then Raise(s.exc)
    else if f == 0 then Raise(IndexError)
    else Ok(Column(s.value, 0))
  }

  /** The evidently intended `ANI1AEV2EnergyFlattenForm.forward` after the
      networks: rows of padding atoms (`valid` false) are zeroed, the others
      kept, once the single-output assertion holds. */
  function FlattenEnergy(atomicAll: seq<Row>, f: nat, valid: seq<bool>): (r: Result<seq<Row>>)
    requires IsMatrix(atomicAll, f) && |valid| == |atomicAll|
    ensures r.Raise? <==> f != 1
    ensures r.Raise? ==> r.exc == AssertionError
    ensures r.Ok? ==> |r.value| == |atomicAll| && IsMatrix(r.value, 1)
  {
    if f != 1 then Raise(AssertionError)
    else Ok(seq(|atomicAll|, i requires 0 <= i < |atomicAll| => if valid[i] then atomicAll[i] else Zeros(1)))
  }

  /** `F.where(valid, atomic_all, zeros)` as written: the 1-D mask of shape
      (m,) broadcasts against the (n, 1) outputs to an (n, m) array whose
      entry (i, j) is atom i's energy where atom j is valid. */
  function FlattenEnergyAsWritten(atomicAll: seq<Row>, f: nat, valid: seq<bool>): (r: Result<seq<Row>>)
    requires IsMatrix(atomicAll, f)
    ensures r.Raise? <==> f != 1
    ensures r.Raise? ==> r.exc == AssertionError
    ensures r.Ok? ==> |r.value| == |atomicAll| && IsMatrix(r.value, |valid|)
  {
    if f != 1 then Raise(AssertionError)
    else Ok(seq(|atomicAll|, i requires 0 <= i < |atomicAll| =>
      seq(|valid|, j requires 0 <= j < |valid| => if valid[j] then atomicAll[i][0] else 0.0)))
  }

  // ---------------------------------------------------------------- lemmas

  /** `numnum = num_elements * (num_elements + 1) // 2`. */
  lemma {:induction false} NumNumFormula(e: nat)
    ensures NumNum(e) == e * (e + 1) / 2
  {
    if e > 0 {
      NumNumFormula(e - 1);
      assert e * (e + 1) == (e - 1) * e + 2 * e;
    }
  }

  /** Multiplying out a row-major slot: `c*k + s` names block c, offset s. */
  lemma SlotUnique(c: nat, s: nat, a: nat, p: nat, k: nat)
    requires s < k && p < k
    ensures c * k + s == a * k + p <==> c == a && s == p
  {
    if c < a {
      assert (c + 1) * k == c * k + k;
      MulMono(c + 1, a, k);
    } else if a < c {
      assert (a + 1) * k == a * k + k;
      MulMono(a + 1, c, k);
    }
  }

  /** A row `x = c*k + s` built from a block c < n and an offset s < k is
      a row of the `n*k` scatter, kept as is by the wrap-around, and it is
      row `a*k + p` exactly when c is a and s is p. */
  lemma SlotTarget(x: int, c: int, s: int, n: nat, k: nat, a: nat, p: nat)
    requires x == c * k + s && 0 <= c < n && 0 <= s < k && p < k
    ensures 0 <= x < n * k && InBounds(x, n * k) && Wrap(x, n * k) == x
    ensures x == a * k + p <==> c == a && s == p
  {
    SlotBound(c, s, n, k);
    SlotUnique(c, s, a, p, k);
  }

  /** The selected entries of an index array still index the same rows. */
  lemma {:induction false} SelectedIndices(x: seq<int>, m: seq<bool>, n: nat)
    requires |x| == |m| && Indices(x, n)
    ensures Indices(Select(x, m), n)
  {
    if |m| > 0 {
      SelectedIndices(x[..|x| - 1], m[..|m| - 1], n);
    }
  }

  /** The kept positions increase strictly. */
  lemma {:induction false} KeptIncreasing(m: seq<bool>)
    ensures forall t, u :: 0 <= t < u < |Kept(m)| ==> Kept(m)[t] < Kept(m)[u]
  {
    if |m| > 0 {
      KeptIncreasing(m[..|m| - 1]);
    }
  }

  /** Every true cell of the mask is kept. */
  lemma {:induction false} KeptComplete(m: seq<bool>, d: nat)
    requires d < |m| && m[d]
    ensures d in Kept(m)
  {
    var n := |m|;
    if d < n - 1 {
      KeptComplete(m[..n - 1], d);
    }
  }

  /** Boolean selection gathers the kept positions. */
  lemma {:induction false} SelectGathers<T>(x: seq<T>, m: seq<bool>)
    requires |x| == |m|
    ensures Gathered(x, m)
  {
    if |m| > 0 {
      var n := |m|;
      SelectGathers(x[..n - 1], m[..n - 1]);
    }
  }

  /** Entry t of `x[m]` is entry `Kept(m)[t]` of x. */
  ghost predicate Gathered<T>(x: seq<T>, m: seq<bool>)
    requires |x| == |m|
  {
    forall t :: 0 <= t < CountTrue(m) ==> Select(x, m)[t] == x[Kept(m)[t]]
  }

  /** The cutoff filter of `ANI1AEV.__call__` applies one mask to the
      distances and to i2, j2 and s2: entry t of every filtered array comes
      from the same original duo `Kept(m)[t]`, that duo is inside the cutoff,
      the kept duos keep their order, and no duo inside the cutoff is lost. */
  lemma CutoffFilter<S>(rij: seq<real>, rc: real, i2: seq<int>, j2: seq<int>, s2: seq<S>)
    requires |rij| == |i2| == |j2| == |s2|
    ensures Gathered(rij, InCutoff(rij, rc)) && Gathered(i2, InCutoff(rij, rc)) &&
      Gathered(j2, InCutoff(rij, rc)) && Gathered(s2, InCutoff(rij, rc))
    ensures forall t :: 0 <= t < CountTrue(InCutoff(rij, rc)) ==> rij[Kept(InCutoff(rij, rc))[t]] < rc
    ensures forall t, u :: 0 <= t < u < CountTrue(InCutoff(rij, rc)) ==> Kept(InCutoff(rij, rc))[t] < Kept(InCutoff(rij, rc))[u]
    ensures forall d :: 0 <= d < |rij| && rij[d] < rc ==> d in Kept(InCutoff(rij, rc))
  {
    var m := InCutoff(rij, rc);
    SelectGathers(rij, m);
    SelectGathers(i2, m);
    SelectGathers(j2, m);
    SelectGathers(s2, m);
    KeptIncreasing(m);
    forall d | 0 <= d < |rij| && rij[d] < rc
      ensures d in Kept(m)
    {
      KeptComplete(m, d);
    }
  }

  /** Every radial scatter target lies in `[0, n_solo * E)` when the centre
      atoms are atoms and the element codes are species, so the radial AEV
      is defined. */
  lemma RadialTargetsInRange(rij: seq<real>, peak: real -> Row, w: nat, ei: seq<int>, i2: seq<int>, j2: seq<int>, e: nat)
    requires |rij| == |i2| == |j2| && Indices(j2, |ei|) && forall x :: |peak(x)| == w
    requires Indices(i2, |ei|) && Codes(ei, e)
    ensures forall d :: 0 <= d < |i2| ==> 0 <= RadialTargets(ei, i2, j2, e)[d] < |ei| * e
    ensures Radial(rij, peak, w, ei, i2, j2, e).Ok?
  {
    forall d | 0 <= d < |i2|
      ensures 0 <= RadialTargets(ei, i2, j2, e)[d] < |ei| * e
    {
      SlotTarget(RadialTargets(ei, i2, j2, e)[d], i2[d], ei[j2[d]], |ei|, e, 0, 0);
    }
  }

  /** The duos a radial scatter row `a*E + e'` collects are the duos
      centred on a whose neighbour has element e'. */
  lemma RadialRow(ei: seq<int>, i2: seq<int>, j2: seq<int>, e: nat, a: nat, e': nat)
    requires |i2| == |j2| && Indices(j2, |ei|) && Indices(i2, |ei|) && Codes(ei, e) && a < |ei| && e' < e
    ensures Targets(RadialTargets(ei, i2, j2, e), |ei| * e, a * e + e') == Duos(ei, i2, j2, a, e')
  {
    var t := RadialTargets(ei, i2, j2, e);
    forall d | 0 <= d < |i2|
      ensures Targets(t, |ei| * e, a * e + e')[d] == Duos(ei, i2, j2, a, e')[d]
    {
      SlotTarget(t[d], i2[d], ei[j2[d]], |ei|, e, a, e');
    }
  }

  /** Block e' of atom a's radial row is the sum of the peaks of exactly the
      duos centred on a whose neighbour has element e'. */
  lemma RadialBlock(rij: seq<real>, peak: real -> Row, w: nat, ei: seq<int>, i2: seq<int>, j2: seq<int>, e: nat, a: nat, e': nat)
    requires |rij| == |i2| == |j2| && Indices(j2, |ei|) && forall x :: |peak(x)| == w
    requires Indices(i2, |ei|) && Codes(ei, e) && a < |ei| && e' < e
    ensures Radial(rij, peak, w, ei, i2, j2, e).Ok? && e' * w + w <= e * w
    ensures IsMatrix(Select(RadialPeaks(rij, peak, w), Duos(ei, i2, j2, a, e')), w)
    ensures Block(Radial(rij, peak, w, ei, i2, j2, e).value[a], e', w) ==
      SumRows(Select(RadialPeaks(rij, peak, w), Duos(ei, i2, j2, a, e')), w)
  {
    RadialTargetsInRange(rij, peak, w, ei, i2, j2, e);
    RadialRow(ei, i2, j2, e, a, e');
    ScatteredBlock(|ei|, e, |ei| * e, w, RadialTargets(ei, i2, j2, e), RadialPeaks(rij, peak, w), a, e', a * e + e', Duos(ei, i2, j2, a, e'));
  }

  /** An atom without a duo to element e' gets an all-zero block. */
  lemma RadialEmptyBlock(rij: seq<real>, peak: real -> Row, w: nat, ei: seq<int>, i2: seq<int>, j2: seq<int>, e: nat, a: nat, e': nat)
    requires |rij| == |i2| == |j2| && Indices(j2, |ei|) && forall x :: |peak(x)| == w
    requires Indices(i2, |ei|) && Codes(ei, e) && a < |ei| && e' < e
    requires forall d :: 0 <= d < |i2| ==> !(i2[d] == a && ei[j2[d]] == e')
    ensures Radial(rij, peak, w, ei, i2, j2, e).Ok? && e' * w + w <= e * w
    ensures Block(Radial(rij, peak, w, ei, i2, j2, e).value[a], e', w) == Zeros(w)
  {
    RadialBlock(rij, peak, w, ei, i2, j2, e, a, e');
    SelectNone(RadialPeaks(rij, peak, w), Duos(ei, i2, j2, a, e'));
  }

  /** Every entry of a square table appears among its flattened values. */
  lemma EntryInValues(m: seq<seq<int>>, a: nat, b: nat)
    requires IsMatrix(m, |m|) && a < |m| && b < |m|
    ensures m[a][b] in Values(Concat(m))
  {
    MatrixSlotAt(m, |m|, a, b);
    var c := Concat(m);
    var i := a * |m| + b;
    assert c[i] == m[a][b];
    assert c[i] in Values(c);
  }

  /** A value below another present value has a strictly smaller rank. */
  lemma RankStrict(x: int, y: int, u: set<int>)
    requires x in u && x < y
    ensures DenseRank(x, u) < DenseRank(y, u)
  {
    var lo, hi := set z | z in u && z < x, set z | z in u && z < y;
    assert lo <= hi && x in hi - lo;
    assert hi == lo + (hi - lo);
  }

  /** A present value's rank is below the number of distinct values. */
  lemma RankBelow(x: int, u: set<int>)
    requires x in u
    ensures DenseRank(x, u) < |u|
  {
    var lo := set z | z in u && z < x;
    assert lo <= u - {x};
    assert u - {x} == lo + (u - {x} - lo);
  }

  /** `symmetric_duo_index` gives a symmetric table that densely ranks the
      entries of `min(di, di.T)`: equal entries share a slot, distinct
      entries get distinct slots, and slot order follows value order. */
  lemma DuoIndexRanks(di: seq<seq<int>>, a: nat, b: nat, c: nat, d: nat)
    requires IsMatrix(di, |di|) && SymmetricDuoIndex(di).Ok?
    requires a < |di| && b < |di| && c < |di| && d < |di|
    ensures SymmetricDuoIndex(di).value[a][b] == SymmetricDuoIndex(di).value[b][a]
    ensures SymmetricDuoIndex(di).value[a][b] == SymmetricDuoIndex(di).value[c][d] <==>
      Symmetrised(di)[a][b] == Symmetrised(di)[c][d]
    ensures SymmetricDuoIndex(di).value[a][b] < SymmetricDuoIndex(di).value[c][d] <==>
      Symmetrised(di)[a][b] < Symmetrised(di)[c][d]
  {
    var m := Symmetrised(di);
    var u := Values(Concat(m));
    EntryInValues(m, a, b);
    EntryInValues(m, c, d);
    if m[a][b] < m[c][d] {
      RankStrict(m[a][b], m[c][d], u);
    } else if m[c][d] < m[a][b] {
      RankStrict(m[c][d], m[a][b], u);
    }
  }

  /** Every slot is below the number of distinct entries, `len(unique)`. */
  lemma DuoIndexBelow(di: seq<seq<int>>, a: nat, b: nat)
    requires IsMatrix(di, |di|) && SymmetricDuoIndex(di).Ok? && a < |di| && b < |di|
    ensures 0 <= SymmetricDuoIndex(di).value[a][b] < |Values(Concat(Symmetrised(di)))|
  {
    var m := Symmetrised(di);
    EntryInValues(m, a, b);
    RankBelow(m[a][b], Values(Concat(m)));
  }

  /** A sequence has at most as many distinct values as entries. */
  lemma {:induction false} ValuesBound(s: seq<int>)
    ensures |Values(s)| <= |s|
  {
    if |s| > 0 {
      var n := |s| - 1;
      ValuesBound(s[..n]);
      assert forall a :: 0 <= a < n ==> s[..n][a] == s[a];
      assert Values(s) == Values(s[..n]) + {s[n]};
    }
  }

  /** Column b of the first k rows. */
  function ColumnPrefix(m: seq<seq<int>>, b: nat, k: nat): (c: seq<int>)
    requires IsMatrix(m, |m|) && b < |m| && k <= |m|
    ensures |c| == k && forall a :: 0 <= a < k ==> c[a] == m[a][b]
  {
    seq(k, a requires 0 <= a < k => m[a][b])
  }

  /** The entries on and above the diagonal of the leading k x k block. */
  function Triangle(m: seq<seq<int>>, k: nat): set<int>
    requires IsMatrix(m, |m|) && k <= |m|
  {
    if k == 0 then {} else Triangle(m, k - 1) + Values(ColumnPrefix(m, k - 1, k))
  }

  /** The upper triangle of a k x k block holds one entry per unordered
      pair of indices below k, so at most `NumNum(k)` distinct values. */
  lemma {:induction false} TriangleSize(m: seq<seq<int>>, k: nat)
    requires IsMatrix(m, |m|) && k <= |m|
    ensures |Triangle(m, k)| <= NumNum(k)
  {
    if k > 0 {
      TriangleSize(m, k - 1);
      ValuesBound(ColumnPrefix(m, k - 1, k));
    }
  }

  /** Entry (a, b) with a <= b < k is in the upper triangle of the block. */
  lemma {:induction false} InTriangle(m: seq<seq<int>>, k: nat, a: nat, b: nat)
    requires IsMatrix(m, |m|) && a <= b < k <= |m|
    ensures m[a][b] in Triangle(m, k)
  {
    if b == k - 1 {
      assert ColumnPrefix(m, b, k)[a] == m[a][b];
    } else {
      InTriangle(m, k - 1, a, b);
    }
  }

  /** Every entry of a symmetric square table sits in its upper triangle. */
  lemma EntryInTriangle(m: seq<seq<int>>, a: nat, b: nat)
    requires IsMatrix(m, |m|) && Symmetric(m) && a < |m| && b < |m|
    ensures m[a][b] in Triangle(m, |m|)
  {
    if a <= b {
      InTriangle(m, |m|, a, b);
    } else {
      assert m[a][b] == m[b][a];
      InTriangle(m, |m|, b, a);
    }
  }

  /** Slot i of rows concatenated is some entry (a, b) of those rows. */
  lemma {:induction false} ConcatEntry(xs: seq<seq<int>>, i: nat) returns (a: nat, b: nat)
    requires i < |Concat(xs)|
    ensures a < |xs| && b < |xs[a]| && Concat(xs)[i] == xs[a][b]
  {
    assert |xs| > 0;
    var n := |xs| - 1;
    var pre := Concat(xs[..n]);
    assert Concat(xs) == pre + xs[n];
    if i < |pre| {
      a, b := ConcatEntry(xs[..n], i);
      assert xs[..n][a] == xs[a];
    } else {
      a, b := n, i - |pre|;
    }
  }

  /** Slot i of the rows of a symmetric square table concatenated is in
      its upper triangle. */
  lemma SlotInTriangle(m: seq<seq<int>>, i: nat)
    requires IsMatrix(m, |m|) && Symmetric(m) && i < |Concat(m)|
    ensures Concat(m)[i] in Triangle(m, |m|)
  {
    var a, b := ConcatEntry(m, i);
    EntryInTriangle(m, a, b);
  }

  /** Every value of a symmetric square table sits in its upper triangle. */
  lemma ValuesInTriangle(m: seq<seq<int>>)
    requires IsMatrix(m, |m|) && Symmetric(m)
    ensures Values(Concat(m)) <= Triangle(m, |m|)
  {
    forall x | x in Values(Concat(m))
      ensures x in Triangle(m, |m|)
    {
      var i :| 0 <= i < |Concat(m)| && Concat(m)[i] == x;
      SlotInTriangle(m, i);
    }
  }

  /** A symmetric E x E table has at most `E * (E + 1) / 2` distinct
      values. */
  lemma SymmetricValuesCount(m: seq<seq<int>>)
    requires IsMatrix(m, |m|) && Symmetric(m)
    ensures |Values(Concat(m))| <= NumNum(|m|)
  {
    var u, t := Values(Concat(m)), Triangle(m, |m|);
    ValuesInTriangle(m);
    TriangleSize(m, |m|);
    assert t == u + (t - u);
  }

  /** `min(di, di.T)` of an E x E table has at most `E * (E + 1) / 2`
      distinct values. */
  lemma DuoValuesCount(di: seq<seq<int>>)
    requires IsMatrix(di, |di|)
    ensures |Values(Concat(Symmetrised(di)))| <= NumNum(|di|)
  {
    var m := Symmetrised(di);
    assert Symmetric(m);
    SymmetricValuesCount(m);
  }

  /** A symmetric duo index of an E x E table uses only the `E * (E + 1) / 2`
      pair slots that `ANI1Angular` reserves, so it meets the slot premise
      of `AngularTargetsInRange` and `AngularBlock`. */
  lemma DuoSlotsInRange(di: seq<seq<int>>)
    requires IsMatrix(di, |di|) && SymmetricDuoIndex(di).Ok?
    ensures SlotsInRange(SymmetricDuoIndex(di).value, NumNum(|di|))
  {
    DuoValuesCount(di);
    forall a, b | 0 <= a < |di| && 0 <= b < |di|
      ensures 0 <= SymmetricDuoIndex(di).value[a][b] < NumNum(|di|)
    {
      DuoIndexBelow(di, a, b);
    }
  }

  /** Both orderings of a trio whose duos share the centre atom land in
      the same scatter row, given a symmetric pair table. */
  lemma TrioSwap(sym: seq<seq<int>>, ei: seq<int>, i2: seq<int>, j2: seq<int>, nn: nat, p: nat, q: nat)
    requires IsMatrix(sym, |sym|) && Symmetric(sym) && |i2| == |j2| && Indices(j2, |ei|) && p < |i2| && q < |i2|
    requires InBounds(ei[j2[p]], |sym|) && InBounds(ei[j2[q]], |sym|) && i2[p] == i2[q]
    ensures TrioTarget(sym, ei, i2, j2, nn, p, q) == TrioTarget(sym, ei, i2, j2, nn, q, p)
  {
  }

  /** Swapping the two duos of every trio leaves the angular AEV unchanged
      when every trio's duos share their centre and the pair table is
      symmetric: a trio and its mirror image accumulate into the same row. */
  lemma AngularSwap(peaks: seq<Row>, w: nat, ei: seq<int>, i2: seq<int>, j2: seq<int>, i3: seq<int>, j3: seq<int>, e: nat, sym: seq<seq<int>>)
    requires AngularShape(peaks, w, ei, i2, j2, i3, j3, sym) && Symmetric(sym)
    requires forall k :: 0 <= k < |i3| ==> i2[i3[k]] == i2[j3[k]]
    ensures AngularShape(peaks, w, ei, i2, j2, j3, i3, sym)
    ensures Angular(peaks, w, ei, i2, j2, j3, i3, e, sym) == Angular(peaks, w, ei, i2, j2, i3, j3, e, sym)
  {
    assert PairCodes(sym, ei, i2, j2, j3, i3) == PairCodes(sym, ei, i2, j2, i3, j3);
    if PairCodes(sym, ei, i2, j2, i3, j3) {
      var nn := NumNum(e);
      forall k | 0 <= k < |i3|
        ensures AngularTargets(sym, ei, i2, j2, j3, i3, nn)[k] == AngularTargets(sym, ei, i2, j2, i3, j3, nn)[k]
      {
        TrioSwap(sym, ei, i2, j2, nn, i3[k], j3[k]);
      }
      assert AngularTargets(sym, ei, i2, j2, j3, i3, nn) == AngularTargets(sym, ei, i2, j2, i3, j3, nn);
    }
  }

  /** Every trio's scatter row lies in `[0, n_solo * numnum)` when the centre
      atoms are atoms and the pair slots are below numnum, so the angular AEV
      is defined. */
  lemma AngularTargetsInRange(peaks: seq<Row>, w: nat, ei: seq<int>, i2: seq<int>, j2: seq<int>, i3: seq<int>, j3: seq<int>, e: nat, sym: seq<seq<int>>)
    requires AngularShape(peaks, w, ei, i2, j2, i3, j3, sym) && PairCodes(sym, ei, i2, j2, i3, j3)
    requires Indices(i2, |ei|) && SlotsInRange(sym, NumNum(e))
    ensures forall k :: 0 <= k < |i3| ==>
      0 <= AngularTargets(sym, ei, i2, j2, i3, j3, NumNum(e))[k] < |ei| * NumNum(e)
    ensures Angular(peaks, w, ei, i2, j2, i3, j3, e, sym).Ok?
  {
    var nn := NumNum(e);
    forall k | 0 <= k < |i3|
      ensures 0 <= AngularTargets(sym, ei, i2, j2, i3, j3, nn)[k] < |ei| * nn
    {
      SlotTarget(AngularTargets(sym, ei, i2, j2, i3, j3, nn)[k], i2[i3[k]], PairSlot(sym, ei[j2[i3[k]]], ei[j2[j3[k]]]), |ei|, nn, 0, 0);
    }
  }

  /** The trios an angular scatter row `a*numnum + p` collects are the
      trios centred on a whose element pair has slot p. */
  lemma AngularRow(ei: seq<int>, i2: seq<int>, j2: seq<int>, i3: seq<int>, j3: seq<int>, e: nat, sym: seq<seq<int>>, a: nat, p: nat)
    requires IsMatrix(sym, |sym|) && |i2| == |j2| && Indices(j2, |ei|) && |i3| == |j3| && Indices(i3, |i2|) && Indices(j3, |i2|)
    requires PairCodes(sym, ei, i2, j2, i3, j3) && Indices(i2, |ei|) && SlotsInRange(sym, NumNum(e)) && a < |ei| && p < NumNum(e)
    ensures Targets(AngularTargets(sym, ei, i2, j2, i3, j3, NumNum(e)), |ei| * NumNum(e), a * NumNum(e) + p) ==
      Trios(sym, ei, i2, j2, i3, j3, a, p)
  {
    var nn := NumNum(e);
    var t := AngularTargets(sym, ei, i2, j2, i3, j3, nn);
    forall k | 0 <= k < |i3|
      ensures Targets(t, |ei| * nn, a * nn + p)[k] == Trios(sym, ei, i2, j2, i3, j3, a, p)[k]
    {
      var slot := PairSlot(sym, ei[j2[i3[k]]], ei[j2[j3[k]]]);
      SlotTarget(t[k], i2[i3[k]], slot, |ei|, nn, a, p);
    }
  }

  /** Block p of atom a's angular row is half the sum of the peaks of exactly
      the trios centred on a whose element pair has slot p. */
  lemma AngularBlock(peaks: seq<Row>, w: nat, ei: seq<int>, i2: seq<int>, j2: seq<int>, i3: seq<int>, j3: seq<int>, e: nat, sym: seq<seq<int>>, a: nat, p: nat)
    requires AngularShape(peaks, w, ei, i2, j2, i3, j3, sym) && PairCodes(sym, ei, i2, j2, i3, j3)
    requires Indices(i2, |ei|) && SlotsInRange(sym, NumNum(e)) && a < |ei| && p < NumNum(e)
    ensures Angular(peaks, w, ei, i2, j2, i3, j3, e, sym).Ok? && p * w + w <= NumNum(e) * w
    ensures IsMatrix(Select(peaks, Trios(sym, ei, i2, j2, i3, j3, a, p)), w)
    ensures Block(Angular(peaks, w, ei, i2, j2, i3, j3, e, sym).value[a], p, w) ==
      HalveRow(SumRows(Select(peaks, Trios(sym, ei, i2, j2, i3, j3, a, p)), w))
  {
    AngularTargetsInRange(peaks, w, ei, i2, j2, i3, j3, e, sym);
    var n, nn := |ei|, NumNum(e);
    var t := AngularTargets(sym, ei, i2, j2, i3, j3, nn);
    var s := ScatterAdd(ZeroMatrix(n * nn, w), w, t, peaks);
    assert Angular(peaks, w, ei, i2, j2, i3, j3, e, sym) == Ok(Halve(Regroup(s.value, n, nn, w)));
    AngularRow(ei, i2, j2, i3, j3, e, sym, a, p);
    HalvedScatteredBlock(n, nn, n * nn, w, t, peaks, a, p, a * nn + p, Trios(sym, ei, i2, j2, i3, j3, a, p));
  }

  /** The series-form energy of system b is the sum of column 0 of the
      atomic outputs over exactly the atoms affiliated with b. */
  lemma SeriesEnergyOfSystem(atomic: seq<Row>, f: nat, i1: seq<int>, nb: nat, b: nat)
    requires IsMatrix(atomic, f) && |i1| == |atomic| && SeriesEnergy(atomic, f, i1, nb).Ok? && b < nb
    ensures SeriesEnergy(atomic, f, i1, nb).value[b] == Total(Select(Column(atomic, 0), Targets(i1, nb, b)))
  {
    var seed := ZeroMatrix(nb, f);
    var m := Targets(i1, nb, b);
    ScatterRow(seed, f, i1, atomic, b);
    AddZeros(SumRows(Select(atomic, m), f));
    SumRowsColumn(Select(atomic, m), f, 0);
    ColumnSelect(atomic, m, f, 0);
  }

  /** A system with no atoms has energy 0. */
  lemma SeriesEnergyEmpty(atomic: seq<Row>, f: nat, i1: seq<int>, nb: nat, b: nat)
    requires IsMatrix(atomic, f) && |i1| == |atomic| && SeriesEnergy(atomic, f, i1, nb).Ok? && b < nb
    requires forall a :: 0 <= a < |i1| ==> Wrap(i1[a], nb) != b
    ensures SeriesEnergy(atomic, f, i1, nb).value[b] == 0.0
  {
    SeriesEnergyOfSystem(atomic, f, i1, nb, b);
    SelectNone(Column(atomic, 0), Targets(i1, nb, b));
  }

  /** The flatten-form energies keep exactly the valid atoms' outputs and
      zero the rest, so their total is the total over the valid atoms. */
  lemma FlattenEnergyMasks(atomicAll: seq<Row>, valid: seq<bool>)
    requires IsMatrix(atomicAll, 1) && |valid| == |atomicAll|
    ensures FlattenEnergy(atomicAll, 1, valid).Ok?
    ensures forall i :: 0 <= i < |valid| ==>
      FlattenEnergy(atomicAll, 1, valid).value[i] == (if valid[i] then atomicAll[i] else [0.0])
    ensures Select(FlattenEnergy(atomicAll, 1, valid).value, valid) == Select(atomicAll, valid)
    ensures Total(Column(FlattenEnergy(atomicAll, 1, valid).value, 0)) == Total(Select(Column(atomicAll, 0), valid))
  {
    var r := FlattenEnergy(atomicAll, 1, valid).value;
    MaskedSelect(r, atomicAll, valid);
    MaskedTotal(Column(r, 0), Column(atomicAll, 0), valid);
  }

  /** Rows that agree on the true cells of a mask select alike. */
  lemma {:induction false} MaskedSelect<T>(x: seq<T>, y: seq<T>, m: seq<bool>)
    requires |x| == |y| == |m| && forall i :: 0 <= i < |m| && m[i] ==> x[i] == y[i]
    ensures Select(x, m) == Select(y, m)
  {
    if |m| > 0 {
      var n := |m|;
      MaskedSelect(x[..n - 1], y[..n - 1], m[..n - 1]);
    }
  }

  /** Values zeroed off a mask total the selected values. */
  lemma {:induction false} MaskedTotal(x: seq<real>, y: seq<real>, m: seq<bool>)
    requires |x| == |y| == |m|
    requires forall i :: 0 <= i < |m| ==> x[i] == (if m[i] then y[i] else 0.0)
    ensures Total(x) == Total(Select(y, m))
  {
    if |m| > 0 {
      var n := |m|;
      MaskedTotal(x[..n - 1], y[..n - 1], m[..n - 1]);
      var part := Select(y[..n - 1], m[..n - 1]);
      assert x == x[..n - 1] + [x[n - 1]];
      if m[n - 1] {
        assert Select(y, m) == part + [y[n - 1]];
        assert (part + [y[n - 1]])[..|part|] == part;
      } else {
        assert Select(y, m) == part;
      }
    }
  }

  /** As written, two atoms of which only the first is valid give a 2 x 2
      array in which the invalid atom's energy survives in column 0. */
  lemma FlattenWhereBroadcasts()
    ensures FlattenEnergyAsWritten([[1.0], [2.0]], 1, [true, false]) == Ok([[1.0, 0.0], [2.0, 0.0]])
    ensures FlattenEnergy([[1.0], [2.0]], 1, [true, false]) == Ok([[1.0], [0.0]])
    ensures FlattenEnergyAsWritten([[1.0], [2.0]], 1, [true, false]) != FlattenEnergy([[1.0], [2.0]], 1, [true, false])
  {
    var asWritten := FlattenEnergyAsWritten([[1.0], [2.0]], 1, [true, false]).value;
    assert asWritten[0] == [1.0, 0.0];
    assert asWritten[1] == [2.0, 0.0];
    assert asWritten == [[1.0, 0.0], [2.0, 0.0]];
    var fixed := FlattenEnergy([[1.0], [2.0]], 1, [true, false]).value;
    assert fixed[0] == [1.0];
    assert fixed[1] == [0.0];
    assert fixed == [[1.0], [0.0]];
  }
}
