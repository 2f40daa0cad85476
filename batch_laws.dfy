/** Laws relating the batch forms of chmd/utils/batchform.py: converting a
    list form to another form and back gives the list back, and the two
    routes to the series form agree. */
module BatchLaws {
  import opened Exceptions
  import opened Seqs
  import SeriesForm
  import ParallelForm
  import ListForm

  // ------------------------------------------------------ mask assignment

  /** Row b of `g[valid] = s`, read back through the mask, is the slice of
      `s` that starts at the number of true cells of the rows before b. */
  lemma AssignedRow<T>(g: seq<seq<T>>, v: seq<seq<bool>>, s: seq<T>, b: nat)
    requires SameShape(g, v) && |s| == CountAll(v) && b < |v|
    ensures CountAll(v[..b]) + CountTrue(v[b]) <= |s|
    ensures Select(ParallelForm.Assigned(g, v, s)[b], v[b]) == s[CountAll(v[..b])..CountAll(v[..b]) + CountTrue(v[b])]
  {
    RowEnd(v, b);
    AssignedCells(g, v, s, b);
    SelectRanked(ParallelForm.Assigned(g, v, s)[b], v[b], s, CountAll(v[..b]));
  }

  /** The true cells of row b of `g[valid] = s` hold consecutive entries of
      `s`, from the number of true cells of the rows before b on. */
  lemma AssignedCells<T>(g: seq<seq<T>>, v: seq<seq<bool>>, s: seq<T>, b: nat)
    requires SameShape(g, v) && |s| == CountAll(v) && b < |v|
    ensures Ranked(ParallelForm.Assigned(g, v, s)[b], v[b], s, CountAll(v[..b]))
  {
    RowEnd(v, b);
    forall k | 0 <= k < |v[b]| && v[b][k]
      ensures CountAll(v[..b]) + CountTrue(v[b][..k]) < |s| &&
        ParallelForm.Assigned(g, v, s)[b][k] == s[CountAll(v[..b]) + CountTrue(v[b][..k])]
    {
      AssignedCell(g, v, s, b, k);
    }
  }

  /** The true cells of the rows up to b are among the mask's. */
  lemma RowEnd(v: seq<seq<bool>>, b: nat)
    requires b < |v|
    ensures CountAll(v[..b]) + CountTrue(v[b]) <= CountAll(v)
  {
    RankNextRow(v, b);
    assert v[b][..|v[b]|] == v[b];
    CountAllPrefix(v, b + 1);
  }

  /** A prefix of the rows has no more true cells than all of them. */
  lemma {:induction false} CountAllPrefix(v: seq<seq<bool>>, n: nat)
    requires n <= |v|
    ensures CountAll(v[..n]) <= CountAll(v)
    decreases |v|
  {
    if n < |v| {
      var init := v[..|v| - 1];
      assert init[..n] == v[..n];
      CountAllPrefix(init, n);
    } else {
      assert v[..n] == v;
    }
  }

  /** A true cell of `g[valid] = s` holds the entry of its rank. */
  lemma AssignedCell<T>(g: seq<seq<T>>, v: seq<seq<bool>>, s: seq<T>, b: nat, k: nat)
    requires SameShape(g, v) && |s| == CountAll(v) && b < |v| && k < |v[b]| && v[b][k]
    ensures CountAll(v[..b]) + CountTrue(v[b][..k]) < |s|
    ensures ParallelForm.Assigned(g, v, s)[b][k] == s[CountAll(v[..b]) + CountTrue(v[b][..k])]
  {
    RankBound(v, b, k);
    assert ParallelForm.Assigned(g, v, s)[b][k] == ParallelForm.Source(v, s, b, k);
  }

  /** Assigning one value per true cell and then masking reads the values
      back in order: `(g[valid] = s; g[valid]) == s`. */
  lemma AssignThenSelect<T>(g: seq<seq<T>>, v: seq<seq<bool>>, s: seq<T>)
    requires SameShape(g, v) && |s| == CountAll(v)
    ensures SeriesForm.SeriesFromParallel(ParallelForm.Assigned(g, v, s), v) == Ok(s)
  {
    AssignedRowsTile(g, v, s);
  }

  /** The masked rows of `g[valid] = s` concatenate to `s`. */
  lemma AssignedRowsTile<T>(g: seq<seq<T>>, v: seq<seq<bool>>, s: seq<T>)
    requires SameShape(g, v) && |s| == CountAll(v)
    ensures Concat(SeriesForm.SelectedRows(ParallelForm.Assigned(g, v, s), v)) == s
  {
    var rows := SeriesForm.SelectedRows(ParallelForm.Assigned(g, v, s), v);
    AssignedTiles(g, v, s);
    SelectedLength(ParallelForm.Assigned(g, v, s), v);
    ConcatOfSlices(rows, s);
    assert s[..|s|] == s;
  }

  lemma AssignedTiles<T>(g: seq<seq<T>>, v: seq<seq<bool>>, s: seq<T>)
    requires SameShape(g, v) && |s| == CountAll(v)
    ensures Tiles(SeriesForm.SelectedRows(ParallelForm.Assigned(g, v, s), v), s)
  {
    var rows := SeriesForm.SelectedRows(ParallelForm.Assigned(g, v, s), v);
    forall b | 0 <= b < |rows|
      ensures TileAt(rows, s, b)
    {
      AssignedTile(g, v, s, b);
    }
  }

  lemma SelectedLength<T>(p: seq<seq<T>>, v: seq<seq<bool>>)
    requires SameShape(p, v)
    ensures |Concat(SeriesForm.SelectedRows(p, v))| == CountAll(v)
  {
    SeriesForm.SelectedRowsOffset(p, v, |p|);
    assert SeriesForm.SelectedRows(p, v)[..|p|] == SeriesForm.SelectedRows(p, v) && v[..|v|] == v;
  }

  lemma AssignedTile<T>(g: seq<seq<T>>, v: seq<seq<bool>>, s: seq<T>, b: nat)
    requires SameShape(g, v) && |s| == CountAll(v) && b < |v|
    ensures TileAt(SeriesForm.SelectedRows(ParallelForm.Assigned(g, v, s), v), s, b)
  {
    AssignedRow(g, v, s, b);
    SelectedTile(ParallelForm.Assigned(g, v, s), v, s, b);
  }

  /** When row b of `p[valid]` is the slice of `s` at the rank of the row's
      first cell, it is part b of a tiling of `s`. */
  lemma SelectedTile<T>(p: seq<seq<T>>, v: seq<seq<bool>>, s: seq<T>, b: nat)
    requires SameShape(p, v) && b < |v| && CountAll(v[..b]) + CountTrue(v[b]) <= |s|
    requires Select(p[b], v[b]) == s[CountAll(v[..b])..CountAll(v[..b]) + CountTrue(v[b])]
    ensures TileAt(SeriesForm.SelectedRows(p, v), s, b)
  {
    SeriesForm.SelectedRowsOffset(p, v, b);
  }

  // ------------------------------------------------------- list round trips

  /** The rows before b of a mask whose row counts are the system lengths
      hold as many true cells as the systems before b hold atoms. */
  lemma CountsOffset<T>(L: seq<seq<T>>, v: seq<seq<bool>>, b: nat)
    requires RowCounts(v) == Lengths(L) && b < |L|
    ensures CountAll(v[..b]) == |Concat(L[..b])|
    ensures CountTrue(v[b]) == |L[b]|
  {
    CountAllIsSum(v[..b]);
    assert RowCounts(v)[..b] == RowCounts(v[..b]);
    assert Lengths(L)[..b] == Lengths(L[..b]);
    ConcatLength(L[..b]);
    assert RowCounts(v)[b] == Lengths(L)[b];
  }

  /** `affiliations_from_valid(valid_from_listform(L))` is
      `affiliations_from_listform(L)`. */
  lemma ValidAffiliationsAgree<T>(L: seq<seq<T>>)
    requires |L| > 0
    ensures SeriesForm.AffiliationsFromValid(ParallelForm.ValidFromListform(L).value) ==
      SeriesForm.AffiliationsFromListform(L).value
  {
  }

  /** A list filled into its own mask with any padding and read back row by
      row (`list_form.from_parallel`) is the list again. */
  lemma ListParallelList<T>(L: seq<seq<T>>, pad: T)
    requires |L| > 0
    ensures ParallelForm.FilledFromList(L, ParallelForm.ValidFromListform(L).value, pad).Ok?
    ensures ListForm.RowsOf(ParallelForm.FilledFromList(L, ParallelForm.ValidFromListform(L).value, pad).value,
                            ParallelForm.ValidFromListform(L).value) == Ok(L)
  {
    var v := ParallelForm.ValidFromListform(L).value;
    ParallelForm.OwnValidCount(L);
    var p := ParallelForm.FilledFromList(L, v, pad).value;
    assert SameShape(p, v) && |p| == |L|;
    forall b | 0 <= b < |L|
      ensures Select(p[b], v[b]) == L[b]
    {
      OwnRow(L, pad, b);
    }
    RowsBack(p, v, L);
  }

  /** A parallel array whose masked rows are the systems of L reads back
      as L. */
  lemma RowsBack<T>(p: seq<seq<T>>, v: seq<seq<bool>>, L: seq<seq<T>>)
    requires SameShape(p, v) && |p| == |L|
    requires forall b :: 0 <= b < |L| ==> Select(p[b], v[b]) == L[b]
    ensures ListForm.RowsOf(p, v) == Ok(L)
  {
    var r := ListForm.RowsOf(p, v);
    assert r.Ok? && |r.value| == |L|;
    assert r.value == L;
  }

  /** Row b of a list filled into its own mask, read back through the mask,
      is system b. */
  lemma OwnRow<T>(L: seq<seq<T>>, pad: T, b: nat)
    requires b < |L|
    ensures ParallelForm.FilledFromList(L, ParallelForm.ValidFromListform(L).value, pad).Ok?
    ensures var v := ParallelForm.ValidFromListform(L).value;
      Select(ParallelForm.FilledFromList(L, v, pad).value[b], v[b]) == L[b]
  {
    var v := ParallelForm.ValidFromListform(L).value;
    FilledRow(L, v, pad, b);
  }

  /** Row b of a list filled into a mask whose row counts are the system
      lengths, read back through the mask, is system b. */
  lemma FilledRow<T>(L: seq<seq<T>>, v: seq<seq<bool>>, pad: T, b: nat)
    requires IsMatrix(v, Width(v)) && RowCounts(v) == Lengths(L) && b < |L|
    ensures ParallelForm.FilledFromList(L, v, pad).Ok?
    ensures Select(ParallelForm.FilledFromList(L, v, pad).value[b], v[b]) == L[b]
  {
    assert |Concat(L)| == CountAll(v) by {
      ConcatLength(L);
      CountAllIsSum(v);
    }
    var g := ParallelForm.Full(|v|, Width(v), pad);
    CountsOffset(L, v, b);
    AssignedRow(g, v, Concat(L), b);
    ConcatSlice(L, b);
  }

  /** A list filled into its own mask and masked again
      (`series_from_parallel`) is the list's series
      (`series_from_listform`), whatever the padding. */
  lemma ListParallelSeries<T>(L: seq<seq<T>>, pad: T)
    requires |L| > 0
    ensures ParallelForm.FilledFromList(L, ParallelForm.ValidFromListform(L).value, pad).Ok?
    ensures SeriesForm.SeriesFromParallel(ParallelForm.FilledFromList(L, ParallelForm.ValidFromListform(L).value, pad).value,
                                          ParallelForm.ValidFromListform(L).value) == SeriesForm.SeriesFromListform(L)
  {
    var v := ParallelForm.ValidFromListform(L).value;
    ParallelForm.OwnValidCount(L);
    AssignThenSelect(ParallelForm.Full(|v|, Width(v), pad), v, Concat(L));
  }

  /** Masking a parallel array row by row (`list_form.from_parallel`) and
      concatenating is masking it at once (`series_from_parallel`). */
  lemma RowsThenConcat<T>(p: seq<seq<T>>, v: seq<seq<bool>>)
    requires SameShape(p, v)
    ensures ListForm.RowsOf(p, v).Ok? && SeriesForm.SeriesFromParallel(p, v).Ok?
    ensures Concat(ListForm.RowsOf(p, v).value) == SeriesForm.SeriesFromParallel(p, v).value
  {
    assert ListForm.RowsOf(p, v).value == SeriesForm.SelectedRows(p, v);
  }

  // ----------------------------------------------------- series round trip

  /** The affiliation of a list form names exactly its non-empty systems. */
  lemma ListAffiliationValues<T>(L: seq<seq<T>>)
    ensures Values(RepeatInterleave(Lengths(L))) == set b | 0 <= b < |L| && |L[b]| > 0
  {
    ValuesOfRepeat(Lengths(L));
  }

  /** Splitting a list's series by its affiliation (`list_form.from_series`)
      gives the list back exactly when no system is empty: an empty system
      has no affiliation entry, so `len(unique(affiliation))` counts it
      out. */
  lemma SeriesListRoundTrip<T>(L: seq<seq<T>>)
    ensures ListForm.SystemsOf(Concat(L), RepeatInterleave(Lengths(L)), |Values(RepeatInterleave(Lengths(L)))|) == Ok(L)
      <==> forall b :: 0 <= b < |L| ==> |L[b]| > 0
  {
    if forall b :: 0 <= b < |L| ==> |L[b]| > 0 {
      SeriesListNonEmpty(L);
    } else {
      var b :| 0 <= b < |L| && |L[b]| == 0;
      SeriesListDropsEmpty(L, b);
    }
  }

  lemma SeriesListNonEmpty<T>(L: seq<seq<T>>)
    requires forall b :: 0 <= b < |L| ==> |L[b]| > 0
    ensures ListForm.SystemsOf(Concat(L), RepeatInterleave(Lengths(L)), |Values(RepeatInterleave(Lengths(L)))|) == Ok(L)
  {
    var aff := RepeatInterleave(Lengths(L));
    assert |Values(aff)| == |L| by {
      ListAffiliationValues(L);
      assert Values(aff) == Range(|L|);
    }
    ConcatLength(L);
    forall i | 0 <= i < |L|
      ensures Select(Concat(L), Matches(aff, i)) == L[i]
    {
      SelectWhereRepeat(L, i);
    }
    SystemsBack(Concat(L), aff, L);
  }

  /** A series whose selections by system are the systems of L splits
      into L. */
  lemma SystemsBack<T>(s: seq<T>, aff: seq<int>, L: seq<seq<T>>)
    requires |s| == |aff|
    requires forall i :: 0 <= i < |L| ==> Select(s, Matches(aff, i)) == L[i]
    ensures ListForm.SystemsOf(s, aff, |L|) == Ok(L)
  {
    var r := ListForm.SystemsOf(s, aff, |L|);
    assert r.Ok? && |r.value| == |L|;
    assert r.value == L;
  }

  /** With system b empty, fewer systems than |L| come back. */
  lemma SeriesListDropsEmpty<T>(L: seq<seq<T>>, b: nat)
    requires b < |L| && |L[b]| == 0
    ensures |Values(RepeatInterleave(Lengths(L)))| < |L|
    ensures ListForm.SystemsOf(Concat(L), RepeatInterleave(Lengths(L)), |Values(RepeatInterleave(Lengths(L)))|) != Ok(L)
  {
    var aff := RepeatInterleave(Lengths(L));
    ListAffiliationValues(L);
    assert Values(aff) <= Range(|L|) - {b};
    SubsetSize(Values(aff), Range(|L|) - {b});
  }

  lemma SubsetSize<X>(a: set<X>, b: set<X>)
    requires a <= b
    ensures |a| <= |b|
  {
    assert b == a + (b - a);
  }

  /** The series form of several lists that share their system lengths,
      split again (`list_form.from_series`), gives the lists back when no
      system is empty. */
  lemma SeriesListRoundTripAll<T>(lists: seq<seq<seq<T>>>, counts: seq<nat>)
    requires forall j :: 0 <= j < |lists| ==> Lengths(lists[j]) == counts
    requires forall b :: 0 <= b < |counts| ==> counts[b] > 0
    ensures ListForm.FromSeries(seq(|lists|, j requires 0 <= j < |lists| => Concat(lists[j])), RepeatInterleave(counts)) == Ok(lists)
  {
    var series := seq(|lists|, j requires 0 <= j < |lists| => Concat(lists[j]));
    var aff := RepeatInterleave(counts);
    forall j | 0 <= j < |lists|
      ensures |series[j]| == |aff| && ListForm.SystemsOf(series[j], aff, |Values(aff)|) == Ok(lists[j])
    {
      var L := lists[j];
      assert forall b :: 0 <= b < |L| ==> |L[b]| == Lengths(L)[b] > 0;
      ConcatLength(L);
      SeriesListNonEmpty(L);
    }
    var r := ListForm.FromSeries(series, aff);
    assert r.Ok? && |r.value| == |lists|;
    assert r.value == lists;
  }

  // --------------------------------------------------- series to parallel

  /** When no system is empty, the mask of a list's affiliation
      (`valid_from_affiliation`) is the list's own mask
      (`valid_from_listform`), and filling the list's series by its
      affiliation (`parallel_from_series`) is filling the list
      (`parallel_from_list`), whatever the padding. */
  lemma SeriesParallelAgree<T>(L: seq<seq<T>>, pad: T)
    requires |L| > 0 && forall b :: 0 <= b < |L| ==> |L[b]| > 0
    ensures ParallelForm.ValidFromAffiliation(RepeatInterleave(Lengths(L))) == ParallelForm.ValidFromListform(L)
    ensures ParallelForm.FilledFromSeries(Concat(L), RepeatInterleave(Lengths(L)), ParallelForm.ValidFromListform(L).value, pad) ==
      ParallelForm.FilledFromList(L, ParallelForm.ValidFromListform(L).value, pad)
  {
    var aff := RepeatInterleave(Lengths(L));
    AffiliationOfNonEmpty(L);
    assert ParallelForm.ValidFromAffiliation(aff) == ParallelForm.ValidFromListform(L);
    ParallelForm.ContiguousWidth(aff);
    ParallelForm.OwnValidCount(L);
  }

  /** The affiliation of a list without empty systems names the systems
      `0..|L|-1`, system b `|L[b]|` times. */
  lemma AffiliationOfNonEmpty<T>(L: seq<seq<T>>)
    requires |L| > 0 && forall b :: 0 <= b < |L| ==> |L[b]| > 0
    ensures Values(RepeatInterleave(Lengths(L))) == Range(|L|)
    ensures ParallelForm.Contiguous(RepeatInterleave(Lengths(L))) && |RepeatInterleave(Lengths(L))| > 0
    ensures ParallelForm.SystemCounts(RepeatInterleave(Lengths(L))) == Lengths(L)
  {
    var aff := RepeatInterleave(Lengths(L));
    ListAffiliationValues(L);
    assert Values(aff) == Range(|L|);
    RepeatInterleaveAt(Lengths(L), 0, 0);
    forall b | 0 <= b < |L|
      ensures ParallelForm.SystemCounts(aff)[b] == Lengths(L)[b]
    {
      OccurrencesOfRepeat(Lengths(L), b);
    }
  }
}
