/** `flatten_form` of chmd/utils/batchform.py: a parallel form (systems as
    rows of a rectangle padded to a common width) with its first two axes
    merged, together with the flattened mask and the system of every slot. */
module FlattenForm {
  import opened Exceptions
  import opened Seqs
  import SeriesForm

  /** `broadcast_to(arange(nb)[:, None], (nb, na)).flatten()`: every row
      index b written na times, rows in order.  Slot `b * na + k` belongs to
      system b. */
  function FlatAffiliation(nb: nat, na: nat): (r: seq<int>)
    ensures |r| == nb * na
  {
    if nb == 0 then []
    else
      assert (nb - 1) * na + na == nb * na;
      FlatAffiliation(nb - 1, na) + Repeat(nb - 1, na)
  }

  /** `x.reshape(n, *x.shape[2:])` of an array whose first two axes are a
      rectangle: the rows concatenated, or ValueError when the number of
      cells is not n. */
  function Reshape<T>(x: seq<seq<T>>, n: nat): (r: Result<seq<T>>)
    requires IsMatrix(x, Width(x))
    ensures r.Raise? <==> |x| * Width(x) != n
    ensures r.Raise? ==> r.exc == ValueError
    ensures r.Ok? ==> |r.value| == n
    ensures r.Ok? ==> forall a :: 0 <= a < n ==>
      a / Width(x) < |x| && a % Width(x) < Width(x) && r.value[a] == x[a / Width(x)][a % Width(x)]
  {
    MatrixSlots(x, Width(x));
    if |Concat(x)| != n then Raise(ValueError) else Ok(Concat(x))
  }

  /** `valid_affiliation_from_parallel`: the flattened mask and the system
      of every slot; slot `b * na + k` is cell (b, k) of the mask and
      belongs to system b, so every slot a belongs to system `a / na`. */
  function ValidAffiliationFromParallel(valid: seq<seq<bool>>): (r: (seq<bool>, seq<int>))
    requires IsMatrix(valid, Width(valid))
    ensures |r.0| == |r.1| == |valid| * Width(valid)
    ensures forall a :: 0 <= a < |r.0| ==>
      a / Width(valid) < |valid| && a % Width(valid) < Width(valid) &&
      r.0[a] == valid[a / Width(valid)][a % Width(valid)] && r.1[a] == a / Width(valid)
  {
    var na := Width(valid);
    MatrixSlots(valid, na);
    FlatAffiliationQuotient(|valid|, na);
    (Concat(valid), FlatAffiliation(|valid|, na))
  }

  /** Every array's first two axes are a rectangle. */
  ghost predicate AllRectangles<T>(parallels: seq<seq<seq<T>>>)
  {
    forall i :: 0 <= i < |parallels| ==> IsMatrix(parallels[i], Width(parallels[i]))
  }

  /** Every array has `cells` cells over its first two axes. */
  ghost predicate AllCells<T>(parallels: seq<seq<seq<T>>>, cells: nat)
  {
    forall i :: 0 <= i < |parallels| ==> |parallels[i]| * Width(parallels[i]) == cells
  }

  /** `flat[i]` is array i reshaped to `cells` slots. */
  ghost predicate ReshapedAll<T>(parallels: seq<seq<seq<T>>>, cells: nat, flat: seq<seq<T>>)
    requires AllRectangles(parallels)
  {
    |flat| == |parallels| && forall i :: 0 <= i < |parallels| ==> Reshape(parallels[i], cells) == Ok(flat[i])
  }

  /** `flatten_form.from_parallel`: every parallel array reshaped in order
      (the first that does not have `nb * na` cells raises ValueError),
      with the flattened mask and the affiliation of the slots. */
  function FromParallel<T>(parallels: seq<seq<seq<T>>>, valid: seq<seq<bool>>): (r: Result<(seq<seq<T>>, seq<bool>, seq<int>)>)
    requires IsMatrix(valid, Width(valid)) && AllRectangles(parallels)
    ensures r.Raise? <==> !AllCells(parallels, |valid| * Width(valid))
    ensures r.Raise? ==> r.exc == ValueError
    ensures r.Ok? ==> (r.value.1, r.value.2) == ValidAffiliationFromParallel(valid)
    ensures r.Ok? ==> ReshapedAll(parallels, |valid| * Width(valid), r.value.0)
  {
    var n, cells := |parallels|, |valid| * Width(valid);
    if n == 0 then
      var va := ValidAffiliationFromParallel(valid);
      Ok(([], va.0, va.1))
    else
      var init := parallels[..n - 1];
      assert AllRectangles(init) by {
        forall i | 0 <= i < n - 1
          ensures IsMatrix(init[i], Width(init[i]))
        {
          assert init[i] == parallels[i];
        }
      }
      match FromParallel(init, valid)
      case Raise(e) =>
        assert !AllCells(parallels, cells) by {
          var i :| 0 <= i < n - 1 && |init[i]| * Width(init[i]) != cells;
          assert init[i] == parallels[i];
        }
        Raise(e)
      case Ok(done) =>
        match Reshape(parallels[n - 1], cells)
        case Raise(e) => Raise(e)
        case Ok(x) =>
          var out := done.0 + [x];
          forall i | 0 <= i < n
            ensures Reshape(parallels[i], cells) == Ok(out[i]) && |parallels[i]| * Width(parallels[i]) == cells
          {
            if i < n - 1 {
              assert init[i] == parallels[i] && out[i] == done.0[i];
            }
          }
          Ok((out, done.1, done.2))
  }

  // ---------------------------------------------------------------- lemmas

  /** In a rectangle with `cols` columns the rows before b hold `b * cols`
      cells. */
  lemma {:induction false} MatrixPrefix<T>(x: seq<seq<T>>, cols: nat, b: nat)
    requires IsMatrix(x, cols) && b <= |x|
    ensures |Concat(x[..b])| == b * cols
  {
    if b > 0 {
      assert x[..b][..b - 1] == x[..b - 1];
      MatrixPrefix(x, cols, b - 1);
      assert (b - 1) * cols + cols == b * cols;
    }
  }

  /** Slot a of the rows of a rectangle concatenated is cell
      `(a / cols, a % cols)`. */
  lemma MatrixSlots<T>(x: seq<seq<T>>, cols: nat)
    requires IsMatrix(x, cols)
    ensures |Concat(x)| == |x| * cols
    ensures forall a :: 0 <= a < |Concat(x)| ==>
      a / cols < |x| && a % cols < cols && Concat(x)[a] == x[a / cols][a % cols]
  {
    MatrixPrefix(x, cols, |x|);
    assert x[..|x|] == x;
    forall a | 0 <= a < |Concat(x)|
      ensures a / cols < |x| && a % cols < cols && Concat(x)[a] == x[a / cols][a % cols]
    {
      MatrixSlotQuotient(x, cols, a);
    }
  }

  lemma MatrixSlotQuotient<T>(x: seq<seq<T>>, cols: nat, a: nat)
    requires IsMatrix(x, cols) && a < |x| * cols
    ensures a / cols < |x| && a % cols < cols && a < |Concat(x)| && Concat(x)[a] == x[a / cols][a % cols]
  {
    var b, k := a / cols, a % cols;
    assert a == b * cols + k;
    assert b < |x| by {
      if b >= |x| {
        MulMono(|x|, b, cols);
      }
    }
    MatrixSlotAt(x, cols, b, k);
  }

  /** Cell (b, k) of a rectangle is entry `b * cols + k` of its rows
      concatenated. */
  lemma MatrixSlotAt<T>(x: seq<seq<T>>, cols: nat, b: nat, k: nat)
    requires IsMatrix(x, cols) && b < |x| && k < cols
    ensures 0 <= b * cols + k < |Concat(x)| && Concat(x)[b * cols + k] == x[b][k]
  {
    MatrixPrefix(x, cols, b);
    ConcatAt(x, b, k);
  }

  /** Slot `b * c + k` of a row-major rectangle of n rows is in range. */
  lemma SlotBound(b: nat, k: nat, n: nat, c: nat)
    requires b < n && k < c
    ensures b * c + k < n * c
  {
    assert (b + 1) * c == b * c + c;
    MulMono(b + 1, n, c);
  }

  lemma MulMono(x: nat, y: nat, c: nat)
    requires x <= y
    ensures x * c <= y * c
  {
  }

  /** Slot `b * na + k` of the flattened affiliation belongs to system b. */
  lemma {:induction false} FlatAffiliationAt(nb: nat, na: nat, b: nat, k: nat)
    requires b < nb && k < na
    ensures b * na + k < nb * na && FlatAffiliation(nb, na)[b * na + k] == b
  {
    SlotBound(b, k, nb, na);
    var init := FlatAffiliation(nb - 1, na);
    if b < nb - 1 {
      SlotBound(b, k, nb - 1, na);
      FlatAffiliationAt(nb - 1, na, b, k);
    } else {
      assert b * na + k - |init| == k;
    }
  }

  /** Every slot a of the flattened affiliation belongs to system `a / na`. */
  lemma FlatAffiliationQuotient(nb: nat, na: nat)
    ensures forall a :: 0 <= a < nb * na ==> FlatAffiliation(nb, na)[a] == a / na
  {
    forall a | 0 <= a < nb * na
      ensures FlatAffiliation(nb, na)[a] == a / na
    {
      var b, k := a / na, a % na;
      assert a == b * na + k;
      assert b < nb by {
        if b >= nb {
          MulMono(nb, b, na);
        }
      }
      FlatAffiliationAt(nb, na, b, k);
    }
  }

  /** Selecting a constant run keeps the constant, once per true cell. */
  lemma {:induction false} SelectRepeat(x: int, m: seq<bool>)
    ensures Select(Repeat(x, |m|), m) == Repeat(x, CountTrue(m))
  {
    if |m| > 0 {
      assert Repeat(x, |m|)[..|m| - 1] == Repeat(x, |m| - 1);
      SelectRepeat(x, m[..|m| - 1]);
    }
  }

  /** Masking the flattened array with the flattened mask is the series form
      of the parallel array. */
  lemma {:induction false} FlatSelectIsSeries<T>(p: seq<seq<T>>, valid: seq<seq<bool>>)
    requires SameShape(p, valid)
    ensures |Concat(p)| == |Concat(valid)|
    ensures SeriesForm.SeriesFromParallel(p, valid) == Ok(Select(Concat(p), Concat(valid)))
  {
    var n := |p|;
    if n == 0 {
      assert SeriesForm.SelectedRows(p, valid) == [];
    } else {
      var p', v' := p[..n - 1], valid[..n - 1];
      FlatSelectIsSeries(p', v');
      SelectAppend(Concat(p'), Concat(v'), p[n - 1], valid[n - 1]);
      assert SeriesForm.SelectedRows(p, valid) == SeriesForm.SelectedRows(p', v') + [Select(p[n - 1], valid[n - 1])];
      assert SeriesForm.SelectedRows(p, valid)[..n - 1] == SeriesForm.SelectedRows(p', v');
    }
  }

  /** Masking the flattened affiliation with the flattened mask is
      `affiliations_from_valid` of the mask. */
  lemma {:induction false} FlatSelectIsAffiliation(valid: seq<seq<bool>>)
    requires IsMatrix(valid, Width(valid))
    ensures Select(ValidAffiliationFromParallel(valid).1, ValidAffiliationFromParallel(valid).0) ==
      SeriesForm.AffiliationsFromValid(valid)
  {
    MatrixSlots(valid, Width(valid));
    FlatSelectRows(valid, Width(valid));
  }

  lemma {:induction false} FlatSelectRows(valid: seq<seq<bool>>, na: nat)
    requires IsMatrix(valid, na)
    ensures |Concat(valid)| == |valid| * na
    ensures Select(FlatAffiliation(|valid|, na), Concat(valid)) == RepeatInterleave(RowCounts(valid))
  {
    MatrixSlots(valid, na);
    var n := |valid|;
    if n > 0 {
      var v' := valid[..n - 1];
      FlatSelectRows(v', na);
      SelectAppend(FlatAffiliation(n - 1, na), Concat(v'), Repeat(n - 1, na), valid[n - 1]);
      SelectRepeat(n - 1, valid[n - 1]);
      assert RowCounts(valid)[..n - 1] == RowCounts(v');
    }
  }

  /** The flattened form and the series form agree: dropping the padding
      slots of `from_parallel`'s arrays and affiliation gives
      `series_form.from_parallel` of the same arrays. */
  lemma FlattenThenMask<T>(parallels: seq<seq<seq<T>>>, valid: seq<seq<bool>>)
    requires IsMatrix(valid, Width(valid))
    requires forall i :: 0 <= i < |parallels| ==> SameShape(parallels[i], valid)
    ensures forall i :: 0 <= i < |parallels| ==> IsMatrix(parallels[i], Width(parallels[i]))
    ensures FromParallel(parallels, valid).Ok? && SeriesForm.FromParallel(parallels, valid).Ok?
    ensures Select(FromParallel(parallels, valid).value.2, FromParallel(parallels, valid).value.1) ==
      SeriesForm.FromParallel(parallels, valid).value.1
    ensures forall i :: 0 <= i < |parallels| ==>
      Select(FromParallel(parallels, valid).value.0[i], FromParallel(parallels, valid).value.1) ==
      SeriesForm.FromParallel(parallels, valid).value.0[i]
  {
    forall i | 0 <= i < |parallels|
      ensures IsMatrix(parallels[i], Width(parallels[i])) && Width(parallels[i]) == Width(valid)
    {
    }
    var f := FromParallel(parallels, valid);
    var s := SeriesForm.FromParallel(parallels, valid);
    FlatSelectIsAffiliation(valid);
    forall i | 0 <= i < |parallels|
      ensures Select(f.value.0[i], f.value.1) == s.value.0[i]
    {
      FlatSelectIsSeries(parallels[i], valid);
    }
  }
}
