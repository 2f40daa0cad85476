/** `series_form` of chmd/utils/batchform.py: every system's atoms
    concatenated along one axis, with an affiliation array naming each atom's
    system.  Arrays are lists of elements of an abstract type T (an element
    stands for one row of the first axis, with all trailing axes); a 2-D
    array is a list of equally long rows. */
module SeriesForm {
  import opened Exceptions
  import opened Seqs

  /** `affiliations_from_valid`: `repeat_interleave(valid.sum(axis=1))`.
      The run of system b starts at the number of true cells in the rows
      before it and is as long as row b's true count. */
  function AffiliationsFromValid(valid: seq<seq<bool>>): (r: seq<int>)
    ensures |r| == CountAll(valid)
    ensures forall a :: 0 <= a < |r| ==> 0 <= r[a] < |valid|
    ensures forall b :: 0 <= b < |valid| ==>
      CountAll(valid[..b]) + CountTrue(valid[b]) <= |r| &&
      r[CountAll(valid[..b])..CountAll(valid[..b]) + CountTrue(valid[b])] == Repeat(b, CountTrue(valid[b]))
  {
    CountAllIsSum(valid);
    var r := RepeatInterleave(RowCounts(valid));
    forall b | 0 <= b < |valid|
      ensures CountAll(valid[..b]) + CountTrue(valid[b]) <= |r| &&
        r[CountAll(valid[..b])..CountAll(valid[..b]) + CountTrue(valid[b])] == Repeat(b, CountTrue(valid[b]))
    {
      assert RowCounts(valid)[..b] == RowCounts(valid[..b]);
      CountAllIsSum(valid[..b]);
      RunOf(RowCounts(valid), b);
    }
    r
  }

  /** `affiliations_from_listform`: `repeat_interleave` of the system
      lengths; `listform[0]` raises IndexError on an empty list.  System b's
      atoms, which start at offset `|Concat(L[..b])|`, all carry b. */
  function AffiliationsFromListform<T>(L: seq<seq<T>>): (r: Result<seq<int>>)
    ensures r.Raise? <==> |L| == 0
    ensures r.Raise? ==> r.exc == IndexError
    ensures r.Ok? ==> |r.value| == |Concat(L)|
    ensures r.Ok? ==> forall a :: 0 <= a < |r.value| ==> 0 <= r.value[a] < |L|
    ensures r.Ok? ==> forall b :: 0 <= b < |L| ==>
      |Concat(L[..b])| + |L[b]| <= |r.value| &&
      r.value[|Concat(L[..b])|..|Concat(L[..b])| + |L[b]|] == Repeat(b, |L[b]|)
  {
    if |L| == 0 then Raise(IndexError)
    else
      var r := RepeatInterleave(Lengths(L));
      ConcatLength(L);
      assert forall b :: 0 <= b < |L| ==>
        |Concat(L[..b])| + |L[b]| <= |r| && r[|Concat(L[..b])|..|Concat(L[..b])| + |L[b]|] == Repeat(b, |L[b]|)
      by {
        forall b | 0 <= b < |L| {
          AffiliationRun(L, b);
        }
      }
      Ok(r)
  }

  /** `series_from_listform`: concatenation of the systems in order; system b
      occupies the slice that starts after all earlier systems. */
  function SeriesFromListform<T>(L: seq<seq<T>>): (r: Result<seq<T>>)
    ensures r.Raise? <==> |L| == 0
    ensures r.Raise? ==> r.exc == IndexError
    ensures r.Ok? ==> |r.value| == Sum(Lengths(L))
    ensures r.Ok? ==> forall b :: 0 <= b < |L| ==>
      |Concat(L[..b])| + |L[b]| <= |r.value| &&
      r.value[|Concat(L[..b])|..|Concat(L[..b])| + |L[b]|] == L[b]
  {
    if |L| == 0 then Raise(IndexError)
    else
      ConcatSlices(L);
      ConcatLength(L);
      Ok(Concat(L))
  }

  /** The rows of `parallelform[valid]`, before concatenation. */
  function SelectedRows<T>(p: seq<seq<T>>, valid: seq<seq<bool>>): (rows: seq<seq<T>>)
    requires SameShape(p, valid)
    ensures |rows| == |p|
    ensures forall b :: 0 <= b < |rows| ==> rows[b] == Select(p[b], valid[b])
  {
    seq(|p|, b requires 0 <= b < |p| => Select(p[b], valid[b]))
  }

  lemma {:induction false} SelectedRowsOffset<T>(p: seq<seq<T>>, valid: seq<seq<bool>>, b: nat)
    requires SameShape(p, valid) && b <= |p|
    ensures |Concat(SelectedRows(p, valid)[..b])| == CountAll(valid[..b])
  {
    if b > 0 {
      SelectedRowsOffset(p, valid, b - 1);
      assert SelectedRows(p, valid)[..b][..b - 1] == SelectedRows(p, valid)[..b - 1];
      assert valid[..b][..b - 1] == valid[..b - 1];
    }
  }

  /** Every true cell (b, k) of the mask is entry `Rank(valid, b, k)` of `s`. */
  ghost predicate InRankOrder<T>(p: seq<seq<T>>, valid: seq<seq<bool>>, s: seq<T>)
    requires SameShape(p, valid)
  {
    forall b, k :: 0 <= b < |valid| && 0 <= k < |valid[b]| && valid[b][k] ==>
      Rank(valid, b, k) < |s| && s[Rank(valid, b, k)] == p[b][k]
  }

  /** Cell (b, k) of a true cell is entry `Rank(valid, b, k)` of the rows
      concatenated. */
  lemma SelectedRowsRanks<T>(p: seq<seq<T>>, valid: seq<seq<bool>>)
    requires SameShape(p, valid)
    ensures |Concat(SelectedRows(p, valid))| == CountAll(valid)
    ensures InRankOrder(p, valid, Concat(SelectedRows(p, valid)))
  {
    var rows := SelectedRows(p, valid);
    SelectedRowsOffset(p, valid, |p|);
    assert rows[..|p|] == rows && valid[..|p|] == valid;
    forall b, k | 0 <= b < |valid| && 0 <= k < |valid[b]| && valid[b][k]
      ensures Rank(valid, b, k) < |Concat(rows)| && Concat(rows)[Rank(valid, b, k)] == p[b][k]
    {
      SelectAt(p[b], valid[b], k);
      SelectedRowsOffset(p, valid, b);
      ConcatAt(rows, b, CountTrue(valid[b][..k]));
    }
  }

  /** `series_from_parallel`: `parallelform[valid]`, the true cells in
      row-major order.  The cell (b, k) of every true cell lands at its
      row-major rank; a mask of another shape raises IndexError. */
  function SeriesFromParallel<T>(p: seq<seq<T>>, valid: seq<seq<bool>>): (r: Result<seq<T>>)
    ensures r.Raise? <==> !SameShape(p, valid)
    ensures r.Raise? ==> r.exc == IndexError
    ensures r.Ok? ==> |r.value| == CountAll(valid)
    ensures r.Ok? ==> InRankOrder(p, valid, r.value)
  {
    if !SameShape(p, valid) then Raise(IndexError)
    else
      SelectedRowsRanks(p, valid);
      Ok(Concat(SelectedRows(p, valid)))
  }

  /** Every parallel array has the shape of the mask. */
  ghost predicate AllShaped<T>(parallels: seq<seq<seq<T>>>, valid: seq<seq<bool>>)
  {
    forall i :: 0 <= i < |parallels| ==> SameShape(parallels[i], valid)
  }

  /** `series[i]` is the series form of parallel array i, one entry per
      affiliation entry. */
  ghost predicate SeriesOfAll<T>(parallels: seq<seq<seq<T>>>, valid: seq<seq<bool>>, series: seq<seq<T>>, aff: seq<int>)
  {
    |series| == |parallels| &&
    forall i :: 0 <= i < |parallels| ==> |series[i]| == |aff| && SeriesFromParallel(parallels[i], valid) == Ok(series[i])
  }

  /** `series_form.from_parallel`: the affiliation of the mask and the series
      of every parallel array, in order; the first array of the wrong shape
      raises. */
  function FromParallel<T>(parallels: seq<seq<seq<T>>>, valid: seq<seq<bool>>): (r: Result<(seq<seq<T>>, seq<int>)>)
    ensures r.Raise? <==> !AllShaped(parallels, valid)
    ensures r.Raise? ==> r.exc == IndexError
    ensures r.Ok? ==> r.value.1 == AffiliationsFromValid(valid) && SeriesOfAll(parallels, valid, r.value.0, r.value.1)
  {
    var n := |parallels|;
    if n == 0 then Ok(([], AffiliationsFromValid(valid)))
    else
      var init := parallels[..n - 1];
      match FromParallel(init, valid)
      case Raise(e) =>
        assert !AllShaped(parallels, valid) by {
          var i :| 0 <= i < n - 1 && !SameShape(init[i], valid);
          assert init[i] == parallels[i];
        }
        Raise(e)
      case Ok(done) =>
        match SeriesFromParallel(parallels[n - 1], valid)
        case Raise(e) =>
          assert !SameShape(parallels[n - 1], valid);
          Raise(e)
        case Ok(s) =>
          var out := done.0 + [s];
          forall i | 0 <= i < n
            ensures |out[i]| == |done.1| && SeriesFromParallel(parallels[i], valid) == Ok(out[i]) && SameShape(parallels[i], valid)
          {
            if i < n - 1 {
              assert init[i] == parallels[i] && out[i] == done.0[i];
            }
          }
          Ok((out, done.1))
  }

  /** `|x|` of an integer. */
  function Abs(x: int): (r: nat)
    ensures r == x || r == -x
  {
    if x < 0 then -x else x
  }

  /** `np.isclose(x, y)` with numpy's default tolerances: `|x - y| <= atol +
      rtol * |y|`, atol = 1e-8 and rtol = 1e-5, evaluated over the reals. */
  predicate Close(x: int, y: int)
  {
    Abs(x - y) as real <= 1.0 / 100000000.0 + Abs(y) as real / 100000.0
  }

  /** Below 100000 the relative tolerance is less than one, so integers are
      close exactly when they are equal. */
  lemma CloseExact(x: int, y: int)
    requires Abs(y) < 100000
    ensures Close(x, y) <==> x == y
  {
    if x != y {
      assert Abs(x - y) >= 1;
      assert Abs(y) as real <= 99999.0;
    }
  }

  /** `np.allclose(a, b)` on two affiliation arrays, with numpy broadcasting:
      equal lengths compare entrywise by `Close`, a length-1 array is
      broadcast, and any other pair of lengths raises ValueError. */
  function AllClose(a: seq<int>, b: seq<int>): (r: Result<bool>)
    ensures r.Raise? <==> |a| != |b| && |a| != 1 && |b| != 1
    ensures r.Raise? ==> r.exc == ValueError
    ensures a == b ==> r == Ok(true)
    ensures (|a| == |b| && forall i :: 0 <= i < |b| ==> Abs(b[i]) < 100000) ==> r == Ok(a == b)
  {
    if |a| == |b| then
      var close := forall i :: 0 <= i < |a| ==> Close(a[i], b[i]);
      assert (forall i :: 0 <= i < |b| ==> Abs(b[i]) < 100000) ==> (close <==> a == b) by {
        if forall i :: 0 <= i < |b| ==> Abs(b[i]) < 100000 {
          forall i | 0 <= i < |a|
            ensures Close(a[i], b[i]) <==> a[i] == b[i]
          {
            CloseExact(a[i], b[i]);
          }
        }
      }
      Ok(close)
    else if |a| == 1 then Ok(forall i :: 0 <= i < |b| ==> Close(a[0], b[i]))
    else if |b| == 1 then Ok(forall i :: 0 <= i < |a| ==> Close(a[i], b[0]))
    else Raise(ValueError)
  }

  /** The relative tolerance makes neighbouring large affiliations close:
      `np.allclose([100000], [100001])` holds. */
  lemma AllCloseTolerance()
    ensures AllClose([100000], [100001]) == Ok(true)
  {
    assert Close(100000, 100001);
  }

  /** One pass of the assertion loop of `series_form.from_list` as written:
      the list's affiliation (`listform[0]` raises on an empty list) is
      compared with `aff` by `np.allclose`. */
  function CheckOneAsWritten<T>(aff: seq<int>, L: seq<seq<T>>): (r: Result<bool>)
    ensures r.Ok? <==> |L| > 0 && AllClose(aff, AffiliationsFromListform(L).value) == Ok(true)
    ensures r.Ok? ==> r == Ok(true)
    ensures |L| == 0 ==> r == Raise(IndexError)
  {
    if |L| == 0 then Raise(IndexError)
    else
      var close := AllClose(aff, AffiliationsFromListform(L).value);
      if close.Raise? then Raise(close.exc)
      else if close.value then Ok(true) else Raise(AssertionError)
  }

  /** The assertion loop of `series_form.from_list` as written: every list is
      compared with the first list's affiliation, in order, and the first
      failure raises. */
  function CheckAllCloseAsWritten<T>(lists: seq<seq<seq<T>>>, aff: seq<int>): (r: Result<bool>)
    ensures r.Ok? <==> forall i :: 0 <= i < |lists| ==> PassesAsWritten(aff, lists[i])
    ensures r.Ok? ==> r == Ok(true)
  {
    if |lists| == 0 then Ok(true)
    else
      var n := |lists| - 1;
      var prev := CheckAllCloseAsWritten(lists[..n], aff);
      PassesStep(lists, aff, n);
      if prev.Raise? then prev else CheckOneAsWritten(aff, lists[n])
  }

  /** A list passes one round of the as-written assertion loop. */
  ghost predicate PassesAsWritten<T>(aff: seq<int>, L: seq<seq<T>>)
  {
    CheckOneAsWritten(aff, L).Ok?
  }

  /** Every list passes exactly when all but the last do and the last does. */
  lemma PassesStep<T>(lists: seq<seq<seq<T>>>, aff: seq<int>, n: nat)
    requires n == |lists| - 1
    ensures (forall i :: 0 <= i < |lists| ==> PassesAsWritten(aff, lists[i])) <==>
      (forall i :: 0 <= i < n ==> PassesAsWritten(aff, lists[..n][i])) && PassesAsWritten(aff, lists[n])
  {
    if forall i :: 0 <= i < n ==> PassesAsWritten(aff, lists[..n][i]) {
      if PassesAsWritten(aff, lists[n]) {
        forall i | 0 <= i < |lists|
          ensures PassesAsWritten(aff, lists[i])
        {
          if i < n {
            assert lists[..n][i] == lists[i];
          } else {
            assert i == n;
          }
        }
      }
    }
    if forall i :: 0 <= i < |lists| ==> PassesAsWritten(aff, lists[i]) {
      forall i | 0 <= i < n
        ensures PassesAsWritten(aff, lists[..n][i])
      {
        assert lists[..n][i] == lists[i];
      }
    }
  }

  /** Only lists of at least one system pass the as-written check
      (`listform[0]` of an empty list raises). */
  lemma {:induction false} PassedNonEmpty<T>(lists: seq<seq<seq<T>>>, aff: seq<int>)
    requires CheckAllCloseAsWritten(lists, aff).Ok?
    ensures forall i :: 0 <= i < |lists| ==> |lists[i]| > 0
  {
    if |lists| > 0 {
      var n := |lists| - 1;
      assert CheckAllCloseAsWritten(lists[..n], aff).Ok?;
      assert CheckOneAsWritten(aff, lists[n]).Ok?;
      assert |lists[n]| > 0;
      PassedNonEmpty(lists[..n], aff);
      forall i | 0 <= i < |lists|
        ensures |lists[i]| > 0
      {
        if i < n {
          assert lists[..n][i] == lists[i];
        } else {
          assert i == n;
        }
      }
    }
  }

  /** Lists that all have the affiliation `aff` pass the as-written check. */
  lemma {:induction false} ExactPassesAllClose<T>(lists: seq<seq<seq<T>>>, aff: seq<int>)
    requires forall i :: 0 <= i < |lists| ==> AffiliationsFromListform(lists[i]) == Ok(aff)
    ensures CheckAllCloseAsWritten(lists, aff) == Ok(true)
  {
    if |lists| > 0 {
      var n := |lists| - 1;
      assert forall i :: 0 <= i < n ==> lists[..n][i] == lists[i];
      ExactPassesAllClose(lists[..n], aff);
      assert AffiliationsFromListform(lists[n]) == Ok(aff);
      assert AllClose(aff, aff) == Ok(true);
    }
  }

  /** `series_form.from_list` as written (np.allclose check). */
  function FromListAsWritten<T>(lists: seq<seq<seq<T>>>): (r: Result<(seq<seq<T>>, seq<int>)>)
    ensures |lists| == 0 ==> r == Raise(IndexError)
    ensures r.Ok? <==> (|lists| > 0 && |lists[0]| > 0 &&
      CheckAllCloseAsWritten(lists, AffiliationsFromListform(lists[0]).value).Ok?)
    ensures r.Ok? ==> AffiliationsFromListform(lists[0]) == Ok(r.value.1) && CheckAllCloseAsWritten(lists, r.value.1) == Ok(true)
    ensures r.Ok? ==> |r.value.0| == |lists| && forall i :: 0 <= i < |lists| ==> SeriesFromListform(lists[i]) == Ok(r.value.0[i])
  {
    if |lists| == 0 then Raise(IndexError)
    else
      match AffiliationsFromListform(lists[0])
      case Raise(e) => Raise(e)
      case Ok(aff) =>
        match CheckAllCloseAsWritten(lists, aff)
        case Raise(e) => Raise(e)
        case Ok(_) =>
          PassedNonEmpty(lists, aff);
          Ok((seq(|lists|, i requires 0 <= i < |lists| => Concat(lists[i])), aff))
  }

  /** The assert loop lets through a second component with three atoms against a
      first component with one: the returned affiliation has one entry while
      the second series has three. */
  lemma AllCloseLetsLengthsDiffer()
    ensures FromListAsWritten([[[10]], [[20, 21, 22]]]).Ok?
    ensures var r := FromListAsWritten([[[10]], [[20, 21, 22]]]).value;
      |r.1| == 1 && |r.0[1]| == 3
  {
    var lists: seq<seq<seq<int>>> := [[[10]], [[20, 21, 22]]];
    assert Concat(lists[0]) == [10] by { assert lists[0][..0] == []; }
    assert Concat(lists[1]) == [20, 21, 22] by { assert lists[1][..0] == []; }
    var a0 := RepeatInterleave(Lengths(lists[0]));
    assert Lengths(lists[0]) == [1];
    assert RepeatInterleave([1]) == [0] by { assert [1][..0] == []; }
    assert Lengths(lists[1]) == [3];
    assert RepeatInterleave([3]) == [0, 0, 0] by { assert [3][..0] == []; }
    assert lists[..1] == [lists[0]];
    assert [lists[0]][..0] == [];
    assert CheckAllCloseAsWritten(lists[..1], [0]) == Ok(true);
    assert lists[..2] == lists;
  }

  /** `series_form.from_list` with exact agreement of the affiliations
      (`np.array_equal` in place of `np.allclose`). */
  method FromList<T>(lists: seq<seq<seq<T>>>) returns (r: Result<(seq<seq<T>>, seq<int>)>)
    ensures r.Ok? <==> |lists| > 0 && forall i :: 0 <= i < |lists| ==>
      |lists[i]| > 0 && AffiliationsFromListform(lists[i]) == AffiliationsFromListform(lists[0])
    ensures r.Ok? ==> AffiliationsFromListform(lists[0]) == Ok(r.value.1) && |r.value.0| == |lists|
    ensures r.Ok? ==> forall i :: 0 <= i < |lists| ==>
      SeriesFromListform(lists[i]) == Ok(r.value.0[i]) && |r.value.0[i]| == |r.value.1|
  {
    if |lists| == 0 {
      return Raise(IndexError);
    }
    var first := AffiliationsFromListform(lists[0]);
    if first.Raise? {
      return Raise(first.exc);
    }
    var aff := first.value;
    var agree := CheckAffiliations(lists, aff);
    if agree.Raise? {
      return Raise(agree.exc);
    }
    var series := SeriesOfLists(lists, aff);
    return Ok((series, aff));
  }

  /** The assertion loop: every list's affiliation is `aff`, or the first one
      that is not raises (IndexError for an empty list, AssertionError for a
      different affiliation). */
  method CheckAffiliations<T>(lists: seq<seq<seq<T>>>, aff: seq<int>) returns (r: Result<bool>)
    ensures r.Ok? <==> forall i :: 0 <= i < |lists| ==> AffiliationsFromListform(lists[i]) == Ok(aff)
  {
    var i := 0;
    while i < |lists|
      invariant 0 <= i <= |lists|
      invariant forall j :: 0 <= j < i ==> AffiliationsFromListform(lists[j]) == Ok(aff)
    {
      var ai := AffiliationsFromListform(lists[i]);
      if ai.Raise? {
        return Raise(ai.exc);
      }
      if ai.value != aff {
        return Raise(AssertionError);
      }
      i := i + 1;
    }
    return Ok(true);
  }

  /** The concatenation of every list, each as long as the affiliation they
      all share. */
  method SeriesOfLists<T>(lists: seq<seq<seq<T>>>, aff: seq<int>) returns (series: seq<seq<T>>)
    requires forall i :: 0 <= i < |lists| ==> AffiliationsFromListform(lists[i]) == Ok(aff)
    ensures |series| == |lists|
    ensures forall i :: 0 <= i < |lists| ==> SeriesFromListform(lists[i]) == Ok(series[i]) && |series[i]| == |aff|
  {
    series := [];
    var i := 0;
    while i < |lists|
      invariant 0 <= i <= |lists| && |series| == i
      invariant forall j :: 0 <= j < i ==> SeriesFromListform(lists[j]) == Ok(series[j]) && |series[j]| == |aff|
    {
      var s := SeriesFromListform(lists[i]);
      assert |s.value| == |aff|;
      series := series + [s.value];
      i := i + 1;
    }
  }
}
