/** `parallel_form` of chmd/utils/batchform.py: systems stacked along a new
    first axis, each padded to the largest system, with a boolean mask
    `valid` of shape (systems, atoms) marking the real atoms.  The two fills
    `parallel_from_list` and `parallel_from_series` write into a freshly
    allocated 2-D array in place; everything else computes a value. */
module ParallelForm {
  import opened Exceptions
  import opened Seqs
  import SeriesForm

  // ------------------------------------------------------------ the masks

  /** Row `arange(width) < c`: the first c cells are true. */
  function PrefixRow(c: nat, width: nat): (r: seq<bool>)
    ensures |r| == width
    ensures forall k :: 0 <= k < width ==> (r[k] <==> k < c)
  {
    seq(width, k => k < c)
  }

  /** `arange(width)[None, :] < counts[:, None]`. */
  function PrefixMask(counts: seq<nat>, width: nat): (v: seq<seq<bool>>)
    ensures |v| == |counts| && IsMatrix(v, width)
    ensures forall b :: 0 <= b < |v| ==> v[b] == PrefixRow(counts[b], width)
  {
    seq(|counts|, b requires 0 <= b < |counts| => PrefixRow(counts[b], width))
  }

  /** When no count exceeds the width, row b of the prefix mask has exactly
      `counts[b]` true cells. */
  lemma PrefixMaskCounts(counts: seq<nat>, width: nat)
    requires forall b :: 0 <= b < |counts| ==> counts[b] <= width
    ensures RowCounts(PrefixMask(counts, width)) == counts
    ensures CountAll(PrefixMask(counts, width)) == Sum(counts)
  {
    RowCountsOfPrefixMask(PrefixMask(counts, width), counts);
    CountAllIsSum(PrefixMask(counts, width));
  }

  /** `valid_from_listform`: one row per system, as wide as the largest
      system, true on the system's atoms; `np.max` of no systems raises
      ValueError. */
  function ValidFromListform<T>(L: seq<seq<T>>): (r: Result<seq<seq<bool>>>)
    ensures r.Raise? <==> |L| == 0
    ensures r.Raise? ==> r.exc == ValueError
    ensures r.Ok? ==> |r.value| == |L| && IsMatrix(r.value, MaxOf(Lengths(L)))
    ensures r.Ok? ==> forall b, k :: 0 <= b < |L| && 0 <= k < |r.value[b]| ==> (r.value[b][k] <==> k < |L[b]|)
    ensures r.Ok? ==> RowCounts(r.value) == Lengths(L) && CountAll(r.value) == Sum(Lengths(L))
    ensures r.Ok? ==> exists b :: 0 <= b < |L| && |L[b]| == Width(r.value)
  {
    if |L| == 0 then Raise(ValueError)
    else
      var width := MaxOf(Lengths(L));
      PrefixMaskCounts(Lengths(L), width);
      Ok(PrefixMask(Lengths(L), width))
  }

  /** The sorted unique affiliations equal `arange(len(unique))`: the
      systems present are exactly `0..n-1`. */
  predicate Contiguous(aff: seq<int>)
  {
    Values(aff) == Range(|Values(aff)|)
  }

  /** `n_atoms` of `xp.unique(aff, return_counts=True)` for contiguous
      affiliations. */
  function SystemCounts(aff: seq<int>): (c: seq<nat>)
    ensures |c| == |Values(aff)|
  {
    OccurrenceCounts(aff, |Values(aff)|)
  }

  /** Under contiguity every atom lies in a row of the mask. */
  lemma ContiguousCounts(aff: seq<int>)
    requires Contiguous(aff)
    ensures Sum(SystemCounts(aff)) == |aff|
    ensures forall b :: 0 <= b < |Values(aff)| ==> SystemCounts(aff)[b] <= MaxOf(SystemCounts(aff))
  {
    forall a | 0 <= a < |aff|
      ensures 0 <= aff[a] < |Values(aff)|
    {
      assert aff[a] in Values(aff);
    }
    SumOccurrenceCounts(aff, |Values(aff)|);
  }

  /** `valid_from_affiliation`: the assertion that the systems are
      `0..n-1` comes first (it holds vacuously for no atoms), then `max` of
      no counts raises ValueError.  Row b is true on the first
      `Occurrences(aff, b)` cells, so the mask has one true cell per atom. */
  function ValidFromAffiliation(aff: seq<int>): (r: Result<seq<seq<bool>>>)
    ensures r.Raise? <==> !Contiguous(aff) || |aff| == 0
    ensures r.Raise? ==> r.exc == (if !Contiguous(aff) then AssertionError else ValueError)
    ensures r.Ok? ==> |r.value| == |Values(aff)| && IsMatrix(r.value, MaxOf(SystemCounts(aff)))
    ensures r.Ok? ==> forall b, k :: 0 <= b < |r.value| && 0 <= k < |r.value[b]| ==>
      (r.value[b][k] <==> k < Occurrences(aff, b))
    ensures r.Ok? ==> RowCounts(r.value) == SystemCounts(aff) && CountAll(r.value) == |aff|
  {
    if !Contiguous(aff) then Raise(AssertionError)
    else if |aff| == 0 then Raise(ValueError)
    else
      var counts := SystemCounts(aff);
      ContiguousCounts(aff);
      PrefixMaskCounts(counts, MaxOf(counts));
      Ok(PrefixMask(counts, MaxOf(counts)))
  }

  // ------------------------------------------------ boolean mask assignment

  /** `tmp[valid] = s` is defined: one value per true cell, or a single value
      that numpy broadcasts to all of them. */
  predicate Assignable<T>(v: seq<seq<bool>>, s: seq<T>)
  {
    |s| == CountAll(v) || |s| == 1
  }

  /** The value `tmp[valid] = s` writes into the true cell (b, k): the entry
      of its row-major rank, or the broadcast value. */
  function Source<T>(v: seq<seq<bool>>, s: seq<T>, b: nat, k: nat): T
    requires b < |v| && k < |v[b]| && v[b][k] && Assignable(v, s)
  {
    if |s| == 1 then s[0]
    else
      RankBound(v, b, k);
      s[Rank(v, b, k)]
  }

  /** A grid `g` of the mask's shape after `g[valid] = s`. */
  function Assigned<T>(g: seq<seq<T>>, v: seq<seq<bool>>, s: seq<T>): (r: seq<seq<T>>)
    requires SameShape(g, v) && Assignable(v, s)
    ensures SameShape(r, v)
    ensures forall b, k :: 0 <= b < |v| && 0 <= k < |v[b]| ==>
      r[b][k] == if v[b][k] then Source(v, s, b, k) else g[b][k]
  {
    seq(|v|, b requires 0 <= b < |v| =>
      seq(|v[b]|, k requires 0 <= k < |v[b]| => if v[b][k] then Source(v, s, b, k) else g[b][k]))
  }

  /** `xp.full((rows, cols), pad)`. */
  function Full<T>(rows: nat, cols: nat, pad: T): (g: seq<seq<T>>)
    ensures |g| == rows && IsMatrix(g, cols)
    ensures forall b, k :: 0 <= b < rows && 0 <= k < cols ==> g[b][k] == pad
  {
    seq(rows, _ => seq(cols, _ => pad))
  }

  /** The contents of a 2-D array, row by row. */
  function Grid<T>(a: array2<T>): (g: seq<seq<T>>)
    reads a
    ensures |g| == a.Length0 && IsMatrix(g, a.Length1)
    ensures forall i, j :: 0 <= i < a.Length0 && 0 <= j < a.Length1 ==> g[i][j] == a[i, j]
  {
    seq(a.Length0, i reads a requires 0 <= i < a.Length0 =>
      seq(a.Length1, j reads a requires 0 <= j < a.Length1 => a[i, j]))
  }

  /** `tmp[valid] = s` in place: the true cells, visited in row-major
      order, take the values of `s` one after another (or all take the one
      broadcast value); the other cells keep what they held. */
  method MaskedAssign<T>(tmp: array2<T>, v: seq<seq<bool>>, s: seq<T>)
    requires tmp.Length0 == |v| && IsMatrix(v, tmp.Length1)
    requires Assignable(v, s)
    modifies tmp
    ensures Grid(tmp) == Assigned(old(Grid(tmp)), v, s)
  {
    ghost var g := Grid(tmp);
    var c := 0;
    var b := 0;
    while b < tmp.Length0
      invariant 0 <= b <= tmp.Length0
      invariant c == CountAll(v[..b])
      invariant forall i, j :: 0 <= i < b && 0 <= j < tmp.Length1 ==>
        tmp[i, j] == if v[i][j] then Source(v, s, i, j) else g[i][j]
      invariant forall i, j :: b <= i < tmp.Length0 && 0 <= j < tmp.Length1 ==> tmp[i, j] == g[i][j]
    {
      c := AssignRow(tmp, v, s, b, c);
      b := b + 1;
    }
    ghost var want := Assigned(g, v, s);
    forall i | 0 <= i < tmp.Length0
      ensures Grid(tmp)[i] == want[i]
    {
    }
  }

  /** Row b of `tmp[valid] = s`, whose first true cell has rank `c0`; the
      result is the rank of the next row's first true cell. */
  method AssignRow<T>(tmp: array2<T>, v: seq<seq<bool>>, s: seq<T>, b: nat, c0: nat) returns (c: nat)
    requires tmp.Length0 == |v| && IsMatrix(v, tmp.Length1) && b < |v|
    requires Assignable(v, s) && c0 == CountAll(v[..b])
    modifies tmp
    ensures c == CountAll(v[..b + 1])
    ensures forall j :: 0 <= j < tmp.Length1 ==>
      tmp[b, j] == if v[b][j] then Source(v, s, b, j) else old(tmp[b, j])
    ensures forall i, j :: 0 <= i < tmp.Length0 && i != b && 0 <= j < tmp.Length1 ==> tmp[i, j] == old(tmp[i, j])
  {
    c := c0;
    var k := 0;
    while k < tmp.Length1
      invariant 0 <= k <= tmp.Length1
      invariant c == Rank(v, b, k)
      invariant forall j :: 0 <= j < k ==> tmp[b, j] == if v[b][j] then Source(v, s, b, j) else old(tmp[b, j])
      invariant forall j :: k <= j < tmp.Length1 ==> tmp[b, j] == old(tmp[b, j])
      invariant forall i, j :: 0 <= i < tmp.Length0 && i != b && 0 <= j < tmp.Length1 ==> tmp[i, j] == old(tmp[i, j])
    {
      RankStep(v, b, k);
      if v[b][k] {
        RankBound(v, b, k);
        tmp[b, k] := if |s| == 1 then s[0] else s[c];
        c := c + 1;
      }
      k := k + 1;
    }
    RankNextRow(v, b);
  }

  // ------------------------------------------------------------- the fills

  /** What `parallel_from_list(listform, valid, padding)` returns: a padded
      array of the mask's shape whose true cells hold the concatenated
      systems.  An empty list raises IndexError (`listform[0]`), a count
      numpy cannot assign raises ValueError. */
  function FilledFromList<T>(L: seq<seq<T>>, valid: seq<seq<bool>>, pad: T): (r: Result<seq<seq<T>>>)
    requires IsMatrix(valid, Width(valid))
    ensures r.Raise? <==> |L| == 0 || !Assignable(valid, Concat(L))
    ensures r.Raise? ==> r.exc == (if |L| == 0 then IndexError else ValueError)
    ensures r.Ok? ==> SameShape(r.value, valid)
    ensures r.Ok? ==> forall b, k :: 0 <= b < |valid| && 0 <= k < |valid[b]| && !valid[b][k] ==> r.value[b][k] == pad
  {
    if |L| == 0 then Raise(IndexError)
    else if !Assignable(valid, Concat(L)) then Raise(ValueError)
    else Ok(Assigned(Full(|valid|, Width(valid), pad), valid, Concat(L)))
  }

  /** `parallel_from_list`, allocating the padded array and assigning the
      concatenated systems to its true cells. */
  method ParallelFromList<T>(L: seq<seq<T>>, valid: seq<seq<bool>>, pad: T) returns (r: Result<array2<T>>)
    requires IsMatrix(valid, Width(valid))
    ensures r.Raise? <==> FilledFromList(L, valid, pad).Raise?
    ensures r.Raise? ==> r.exc == FilledFromList(L, valid, pad).exc
    ensures r.Ok? ==> fresh(r.value) && Grid(r.value) == FilledFromList(L, valid, pad).value
  {
    if |L| == 0 {
      return Raise(IndexError);
    }
    var s := Concat(L);
    var tmp := new T[|valid|, Width(valid)]((_, _) => pad);
    forall i | 0 <= i < |valid|
      ensures Grid(tmp)[i] == Full(|valid|, Width(valid), pad)[i]
    {
    }
    if !Assignable(valid, s) {
      return Raise(ValueError);
    }
    MaskedAssign(tmp, valid, s);
    return Ok(tmp);
  }

  /** The largest number of atoms of one system, `max(n_atoms)`. */
  function MaxMultiplicity(aff: seq<int>): (m: nat)
    ensures forall a :: 0 <= a < |aff| ==> Occurrences(aff, aff[a]) <= m
    ensures |aff| > 0 ==> exists a :: 0 <= a < |aff| && Occurrences(aff, aff[a]) == m
  {
    var c := seq(|aff|, a requires 0 <= a < |aff| => Occurrences(aff, aff[a]));
    assert forall a :: 0 <= a < |aff| ==> c[a] == Occurrences(aff, aff[a]);
    MaxOf(c)
  }

  /** What `parallel_from_series(s, affiliation, valid, padding)` returns:
      an array with one row per system present and one column per atom of
      the largest system.  No atoms raise ValueError (`max` of no counts), a
      mask of another shape IndexError, an unassignable count ValueError. */
  function FilledFromSeries<T>(s: seq<T>, aff: seq<int>, valid: seq<seq<bool>>, pad: T): (r: Result<seq<seq<T>>>)
    requires IsMatrix(valid, Width(valid))
    ensures r.Raise? <==>
      (|aff| == 0 || |valid| != |Values(aff)| || Width(valid) != MaxMultiplicity(aff) || !Assignable(valid, s))
    ensures r.Raise? ==>
      r.exc == (if |aff| == 0 then ValueError
                else if |valid| != |Values(aff)| || Width(valid) != MaxMultiplicity(aff) then IndexError
                else ValueError)
    ensures r.Ok? ==> SameShape(r.value, valid)
    ensures r.Ok? ==> forall b, k :: 0 <= b < |valid| && 0 <= k < |valid[b]| && !valid[b][k] ==> r.value[b][k] == pad
  {
    if |aff| == 0 then Raise(ValueError)
    else if |valid| != |Values(aff)| || Width(valid) != MaxMultiplicity(aff) then Raise(IndexError)
    else if !Assignable(valid, s) then Raise(ValueError)
    else Ok(Assigned(Full(|Values(aff)|, MaxMultiplicity(aff), pad), valid, s))
  }

  /** `parallel_from_series`, allocating the padded array from the counts
      of the affiliation and assigning the series to the true cells. */
  method ParallelFromSeries<T>(s: seq<T>, aff: seq<int>, valid: seq<seq<bool>>, pad: T) returns (r: Result<array2<T>>)
    requires IsMatrix(valid, Width(valid))
    ensures r.Raise? <==> FilledFromSeries(s, aff, valid, pad).Raise?
    ensures r.Raise? ==> r.exc == FilledFromSeries(s, aff, valid, pad).exc
    ensures r.Ok? ==> fresh(r.value) && Grid(r.value) == FilledFromSeries(s, aff, valid, pad).value
  {
    if |aff| == 0 {
      return Raise(ValueError);
    }
    var rows, cols := |Values(aff)|, MaxMultiplicity(aff);
    var tmp := new T[rows, cols]((_, _) => pad);
    forall i | 0 <= i < rows
      ensures Grid(tmp)[i] == Full(rows, cols, pad)[i]
    {
    }
    if |valid| != rows || Width(valid) != cols {
      return Raise(IndexError);
    }
    if !Assignable(valid, s) {
      return Raise(ValueError);
    }
    MaskedAssign(tmp, valid, s);
    return Ok(tmp);
  }

  // --------------------------------------------- collections of systems

  /** `np.allclose(a, b)` on two masks, with numpy broadcasting: each axis
      must have equal extents or extent 1 on one side, otherwise ValueError;
      a broadcast axis repeats its single row or column. */
  function AllClose2(a: seq<seq<bool>>, c: seq<seq<bool>>): (r: Result<bool>)
    requires IsMatrix(a, Width(a)) && IsMatrix(c, Width(c))
    ensures r.Raise? <==> !Broadcastable(|a|, |c|) || !Broadcastable(Width(a), Width(c))
    ensures (|a| == |c| && Width(a) == Width(c)) ==> r == Ok(a == c)
  {
    if !Broadcastable(|a|, |c|) || !Broadcastable(Width(a), Width(c)) then Raise(ValueError)
    else
      var rows := if |a| == 1 then |c| else |a|;
      var cols := if Width(a) == 1 then Width(c) else Width(a);
      var close := forall i, j :: 0 <= i < rows && 0 <= j < cols ==> BroadcastAt(a, i, j) == BroadcastAt(c, i, j);
      assert (|a| == |c| && Width(a) == Width(c)) ==> (close <==> a == c) by {
        if |a| == |c| && Width(a) == Width(c) && close {
          forall i | 0 <= i < |a|
            ensures a[i] == c[i]
          {
            forall j | 0 <= j < Width(a)
              ensures a[i][j] == c[i][j]
            {
              assert BroadcastAt(a, i, j) == BroadcastAt(c, i, j);
            }
          }
        }
      }
      Ok(close)
  }

  /** Two extents broadcast against each other. */
  predicate Broadcastable(m: nat, n: nat)
  {
    m == n || m == 1 || n == 1
  }

  /** Cell (i, j) of a mask broadcast along its axes of extent 1. */
  function BroadcastAt(g: seq<seq<bool>>, i: nat, j: nat): bool
    requires IsMatrix(g, Width(g))
  {
    var i' := if |g| == 1 then 0 else i;
    var j' := if Width(g) == 1 then 0 else j;
    if i' < |g| && j' < Width(g) then g[i'][j'] else false
  }

  /** One list passes the as-written assertion against `valid`. */
  ghost predicate MaskCloseTo<T>(valid: seq<seq<bool>>, L: seq<seq<T>>)
    requires IsMatrix(valid, Width(valid))
  {
    ValidFromListform(L).Ok? && AllClose2(valid, ValidFromListform(L).value) == Ok(true)
  }

  /** The assertion loop of `parallel_form.from_list` as written: every
      list's mask is compared with the first list's by `np.allclose`, in
      order, and the first failure raises. */
  function CheckValidAsWritten<T>(lists: seq<seq<seq<T>>>, valid: seq<seq<bool>>): (r: Result<bool>)
    requires IsMatrix(valid, Width(valid))
    ensures r.Ok? <==> forall i :: 0 <= i < |lists| ==> MaskCloseTo(valid, lists[i])
    ensures r.Ok? ==> r == Ok(true)
  {
    if |lists| == 0 then Ok(true)
    else
      var n := |lists| - 1;
      var prev := CheckValidAsWritten(lists[..n], valid);
      assert forall i :: 0 <= i < n ==> lists[..n][i] == lists[i];
      if prev.Raise? then prev
      else
        var w := ValidFromListform(lists[n]);
        if w.Raise? then Raise(w.exc)
        else
          var close := AllClose2(valid, w.value);
          if close.Raise? then Raise(close.exc)
          else if close.value then Ok(true) else Raise(AssertionError)
  }

  /** Lists that all have the mask `valid` pass the as-written check. */
  lemma ExactPassesAllClose2<T>(lists: seq<seq<seq<T>>>, valid: seq<seq<bool>>)
    requires IsMatrix(valid, Width(valid))
    requires forall i :: 0 <= i < |lists| ==> ValidFromListform(lists[i]) == Ok(valid)
    ensures CheckValidAsWritten(lists, valid) == Ok(true)
  {
    forall i | 0 <= i < |lists|
      ensures MaskCloseTo(valid, lists[i])
    {
      assert AllClose2(valid, valid) == Ok(true);
    }
  }

  /** The fills of `parallel_form.from_list` as written, over
      `zip(lists, padding)`; the first failing fill raises. */
  function FillAllFromList<T>(lists: seq<seq<seq<T>>>, padding: seq<T>, valid: seq<seq<bool>>): (r: Result<seq<seq<seq<T>>>>)
    requires IsMatrix(valid, Width(valid))
    requires |lists| <= |padding|
    ensures r.Ok? <==> forall i :: 0 <= i < |lists| ==> FilledFromList(lists[i], valid, padding[i]).Ok?
    ensures r.Ok? ==> |r.value| == |lists|
    ensures r.Ok? ==> forall i :: 0 <= i < |lists| ==> FilledFromList(lists[i], valid, padding[i]) == Ok(r.value[i])
  {
    if |lists| == 0 then Ok([])
    else
      var n := |lists| - 1;
      var prev := FillAllFromList(lists[..n], padding, valid);
      assert forall i :: 0 <= i < n ==> lists[..n][i] == lists[i];
      if prev.Raise? then prev
      else
        var last := FilledFromList(lists[n], valid, padding[n]);
        if last.Raise? then Raise(last.exc)
        else Ok(prev.value + [last.value])
  }

  /** `parallel_form.from_list` as written, once the first list's mask
      `valid` is known: the assertion loop, then the fills. */
  function FillCheckedAsWritten<T>(lists: seq<seq<seq<T>>>, padding: seq<T>, valid: seq<seq<bool>>): (r: Result<seq<seq<seq<T>>>>)
    requires IsMatrix(valid, Width(valid))
    ensures r.Ok? <==> (CheckValidAsWritten(lists, valid).Ok? &&
      forall i :: 0 <= i < ZipLength(|lists|, |padding|) ==> FilledFromList(lists[i], valid, padding[i]).Ok?)
    ensures r.Ok? ==> CheckValidAsWritten(lists, valid) == Ok(true)
    ensures r.Ok? ==> |r.value| == ZipLength(|lists|, |padding|) && forall i :: 0 <= i < |r.value| ==>
      FilledFromList(lists[i], valid, padding[i]) == Ok(r.value[i])
  {
    var check := CheckValidAsWritten(lists, valid);
    if check.Raise? then Raise(check.exc)
    else
      var n := ZipLength(|lists|, |padding|);
      var fills := FillAllFromList(lists[..n], padding, valid);
      assert forall i :: 0 <= i < n ==> lists[..n][i] == lists[i];
      fills
  }

  /** `parallel_form.from_list` as written (np.allclose check). */
  function FromListAsWritten<T>(lists: seq<seq<seq<T>>>, padding: seq<T>): (r: Result<(seq<seq<seq<T>>>, seq<seq<bool>>)>)
    ensures |lists| == 0 ==> r == Raise(IndexError)
    ensures r.Ok? <==> (|lists| > 0 && |lists[0]| > 0 &&
      FillCheckedAsWritten(lists, padding, ValidFromListform(lists[0]).value).Ok?)
    ensures r.Ok? ==> ValidFromListform(lists[0]) == Ok(r.value.1) && CheckValidAsWritten(lists, r.value.1) == Ok(true)
    ensures r.Ok? ==> |r.value.0| == ZipLength(|lists|, |padding|) && forall i :: 0 <= i < |r.value.0| ==>
      FilledFromList(lists[i], r.value.1, padding[i]) == Ok(r.value.0[i])
  {
    if |lists| == 0 then Raise(IndexError)
    else
      var v := ValidFromListform(lists[0]);
      if v.Raise? then Raise(v.exc)
      else
        var fills := FillCheckedAsWritten(lists, padding, v.value);
        if fills.Raise? then Raise(fills.exc) else Ok((fills.value, v.value))
  }

  /** Two systems of one atom each and then one system of one atom: the masks
      (2, 1) and (1, 1) broadcast and compare equal, and the second list's
      single atom is written into both rows. */
  lemma AllCloseDuplicatesSystem()
    ensures FromListAsWritten([[[1], [2]], [[3]]], [0, 0]).Ok?
    ensures FromListAsWritten([[[1], [2]], [[3]]], [0, 0]).value.0[1] == [[3], [3]]
  {
    var lists: seq<seq<seq<int>>> := [[[1], [2]], [[3]]];
    var valid: seq<seq<bool>> := [[true], [true]];
    var padding: seq<int> := [0, 0];
    TwoSingleAtomSystems();
    BroadcastCheckPasses();
    var p0 := FilledFromList(lists[0], valid, 0);
    var p1 := FilledFromList(lists[1], valid, 0);
    assert p0.Ok? && p1.Ok? && p1.value == [[3], [3]] by {
      ExactFill();
      BroadcastFill();
    }
    FillAllTwo(lists, padding, valid);
    assert lists[..ZipLength(|lists|, |padding|)] == lists;
  }

  /** The masks (2, 1) and (1, 1) pass the `np.allclose` assertion loop. */
  lemma BroadcastCheckPasses()
    ensures CheckValidAsWritten([[[1], [2]], [[3]]], [[true], [true]]) == Ok(true)
  {
    var lists: seq<seq<seq<int>>> := [[[1], [2]], [[3]]];
    var valid: seq<seq<bool>> := [[true], [true]];
    TwoSingleAtomSystems();
    OneSingleAtomSystem();
    assert AllClose2(valid, [[true]]) == Ok(true) by {
      assert BroadcastAt(valid, 0, 0) && BroadcastAt(valid, 1, 0);
      assert BroadcastAt([[true]], 0, 0) && BroadcastAt([[true]], 1, 0);
    }
    assert AllClose2(valid, valid) == Ok(true);
    assert lists[..1] == [lists[0]] && [lists[0]][..0] == [];
    assert CheckValidAsWritten(lists[..1][..0], valid) == Ok(true);
    assert CheckValidAsWritten(lists[..1], valid) == Ok(true);
  }

  /** The fills of two lists that both fill without error. */
  lemma FillAllTwo<T>(lists: seq<seq<seq<T>>>, padding: seq<T>, valid: seq<seq<bool>>)
    requires IsMatrix(valid, Width(valid)) && |lists| == 2 <= |padding|
    requires FilledFromList(lists[0], valid, padding[0]).Ok? && FilledFromList(lists[1], valid, padding[1]).Ok?
    ensures FillAllFromList(lists, padding, valid) ==
      Ok([FilledFromList(lists[0], valid, padding[0]).value, FilledFromList(lists[1], valid, padding[1]).value])
  {
    var p0 := FilledFromList(lists[0], valid, padding[0]).value;
    var p1 := FilledFromList(lists[1], valid, padding[1]).value;
    var first := lists[..1];
    assert first[..0] == [] && first[0] == lists[0];
    FillSnoc(first, padding, valid, []);
    var one := FillAllFromList(first, padding, valid).value;
    assert lists[..|lists| - 1] == first;
    FillSnoc(lists, padding, valid, one);
    assert one + [p1] == [p0, p1];
  }

  /** One more list that fills is one more fill at the end. */
  lemma FillSnoc<T>(lists: seq<seq<seq<T>>>, padding: seq<T>, valid: seq<seq<bool>>, done: seq<seq<seq<T>>>)
    requires IsMatrix(valid, Width(valid)) && 0 < |lists| <= |padding|
    requires FillAllFromList(lists[..|lists| - 1], padding, valid) == Ok(done)
    requires FilledFromList(lists[|lists| - 1], valid, padding[|lists| - 1]).Ok?
    ensures FillAllFromList(lists, padding, valid) ==
      Ok(done + [FilledFromList(lists[|lists| - 1], valid, padding[|lists| - 1]).value])
  {
  }

  lemma TwoSingleAtomSystems()
    ensures ValidFromListform([[1], [2]]) == Ok([[true], [true]])
    ensures CountAll([[true], [true]]) == 2
    ensures Concat([[1], [2]]) == [1, 2]
  {
    var L: seq<seq<int>> := [[1], [2]];
    assert Lengths(L) == [1, 1];
    assert MaxOf([1, 1]) == 1 by { assert [1, 1][..1] == [1]; assert [1][..0] == []; }
    assert PrefixRow(1, 1) == [true];
    assert PrefixMask([1, 1], 1) == [[true], [true]];
    var valid: seq<seq<bool>> := [[true], [true]];
    assert valid[..1] == [[true]] && [[true]][..0] == [] && [true][..0] == [];
    assert L[..1] == [[1]] && L[..1][..0] == [];
  }

  lemma OneSingleAtomSystem()
    ensures ValidFromListform([[3]]) == Ok([[true]])
    ensures Concat([[3]]) == [3]
  {
    var L: seq<seq<int>> := [[3]];
    assert Lengths(L) == [1];
    assert MaxOf([1]) == 1 by { assert [1][..0] == []; }
    assert PrefixRow(1, 1) == [true];
    assert PrefixMask([1], 1) == [[true]];
    assert L[..0] == [];
  }

  /** One atom broadcast into a (2, 1) mask. */
  lemma BroadcastFill()
    ensures FilledFromList([[3]], [[true], [true]], 0) == Ok([[3], [3]])
  {
    OneSingleAtomSystem();
    var valid: seq<seq<bool>> := [[true], [true]];
    var s: seq<int> := [3];
    assert Width(valid) == 1 && Assignable(valid, s);
    var g := Assigned(Full(2, 1, 0), valid, s);
    assert g == [[3], [3]] by {
      assert Source(valid, s, 0, 0) == 3 && Source(valid, s, 1, 0) == 3;
      assert g[0] == [3] && g[1] == [3];
    }
  }

  /** Two atoms into a (2, 1) mask. */
  lemma ExactFill()
    ensures FilledFromList([[1], [2]], [[true], [true]], 0).Ok?
  {
    TwoSingleAtomSystems();
  }

  /** `parallel_form.from_list` with exact agreement of the masks
      (`np.array_equal` in place of `np.allclose`): every list then has
      exactly as many atoms as true cells, so no fill can fail. */
  method FromList<T>(lists: seq<seq<seq<T>>>, padding: seq<T>) returns (r: Result<(seq<seq<seq<T>>>, seq<seq<bool>>)>)
    ensures r.Ok? <==> |lists| > 0 && forall i :: 0 <= i < |lists| ==>
      ValidFromListform(lists[i]).Ok? && ValidFromListform(lists[i]) == ValidFromListform(lists[0])
    ensures r.Ok? ==> ValidFromListform(lists[0]) == Ok(r.value.1)
    ensures r.Ok? ==> |r.value.0| == ZipLength(|lists|, |padding|)
    ensures r.Ok? ==> forall i :: 0 <= i < |r.value.0| ==>
      FilledFromList(lists[i], r.value.1, padding[i]) == Ok(r.value.0[i])
  {
    if |lists| == 0 {
      return Raise(IndexError);
    }
    var first := ValidFromListform(lists[0]);
    if first.Raise? {
      return Raise(first.exc);
    }
    var valid := first.value;
    var agree := CheckValid(lists, valid);
    if agree.Raise? {
      return Raise(agree.exc);
    }
    forall i | 0 <= i < |lists|
      ensures |lists[i]| > 0 && |Concat(lists[i])| == CountAll(valid)
    {
      OwnValidCount(lists[i]);
    }
    var parallels := FillAll(lists, padding, valid);
    return Ok((parallels, valid));
  }

  /** The assertion loop: every list's mask is `valid`, or the first one that
      is not raises (ValueError for an empty list, AssertionError for a
      different mask). */
  method CheckValid<T>(lists: seq<seq<seq<T>>>, valid: seq<seq<bool>>) returns (r: Result<bool>)
    ensures r.Ok? <==> forall i :: 0 <= i < |lists| ==> ValidFromListform(lists[i]) == Ok(valid)
  {
    var i := 0;
    while i < |lists|
      invariant 0 <= i <= |lists|
      invariant forall j :: 0 <= j < i ==> ValidFromListform(lists[j]) == Ok(valid)
    {
      var vi := ValidFromListform(lists[i]);
      if vi.Raise? {
        return Raise(vi.exc);
      }
      if vi.value != valid {
        return Raise(AssertionError);
      }
      i := i + 1;
    }
    return Ok(true);
  }

  /** The fills over `zip(lists, padding)`, each into a fresh array read
      back as a grid. */
  method FillAll<T>(lists: seq<seq<seq<T>>>, padding: seq<T>, valid: seq<seq<bool>>) returns (ps: seq<seq<seq<T>>>)
    requires IsMatrix(valid, Width(valid))
    requires forall i :: 0 <= i < |lists| ==> |lists[i]| > 0 && |Concat(lists[i])| == CountAll(valid)
    ensures |ps| == ZipLength(|lists|, |padding|)
    ensures forall i :: 0 <= i < |ps| ==> FilledFromList(lists[i], valid, padding[i]) == Ok(ps[i])
  {
    var n := ZipLength(|lists|, |padding|);
    ps := [];
    var i := 0;
    while i < n
      invariant 0 <= i <= n && |ps| == i
      invariant forall j :: 0 <= j < i ==> FilledFromList(lists[j], valid, padding[j]) == Ok(ps[j])
    {
      var grid := FillOwn(lists[i], valid, padding[i]);
      ps := ps + [grid];
      i := i + 1;
    }
  }

  /** `parallel_from_list` of a list against its own mask, read back. */
  method FillOwn<T>(L: seq<seq<T>>, valid: seq<seq<bool>>, pad: T) returns (grid: seq<seq<T>>)
    requires IsMatrix(valid, Width(valid))
    requires |L| > 0 && |Concat(L)| == CountAll(valid)
    ensures FilledFromList(L, valid, pad) == Ok(grid)
  {
    var p := ParallelFromList(L, valid, pad);
    grid := Grid(p.value);
  }

  /** `parallel_form.from_series`: the mask of the affiliation, then one
      fill per pair of `zip(series, padding)`; the first failure raises. */
  method FromSeries<T>(series: seq<seq<T>>, aff: seq<int>, padding: seq<T>) returns (r: Result<(seq<seq<seq<T>>>, seq<seq<bool>>)>)
    ensures ValidFromAffiliation(aff).Raise? ==> r == Raise(ValidFromAffiliation(aff).exc)
    ensures ValidFromAffiliation(aff).Ok? ==>
      (r.Ok? <==> forall i :: 0 <= i < ZipLength(|series|, |padding|) ==> Assignable(ValidFromAffiliation(aff).value, series[i]))
    ensures r.Ok? ==> ValidFromAffiliation(aff) == Ok(r.value.1) && |r.value.0| == ZipLength(|series|, |padding|)
    ensures r.Ok? ==> FilledAll(series, aff, r.value.1, padding, r.value.0)
  {
    var v := ValidFromAffiliation(aff);
    if v.Raise? {
      return Raise(v.exc);
    }
    var valid := v.value;
    ContiguousWidth(aff);
    var ps := FillAllSeries(series, aff, padding, valid);
    if ps.Raise? {
      return Raise(ps.exc);
    }
    return Ok((ps.value, valid));
  }

  /** `ps[i]` is the fill of series i with padding i. */
  ghost predicate FilledAll<T>(series: seq<seq<T>>, aff: seq<int>, valid: seq<seq<bool>>, padding: seq<T>, ps: seq<seq<seq<T>>>)
    requires IsMatrix(valid, Width(valid))
  {
    |ps| <= |series| && |ps| <= |padding| &&
    forall i :: 0 <= i < |ps| ==> FilledFromSeries(series[i], aff, valid, padding[i]) == Ok(ps[i])
  }

  /** The fills of `parallel_form.from_series` over `zip(series, padding)`
      against a mask of the shape the affiliation implies; the first series
      numpy cannot assign raises ValueError. */
  method FillAllSeries<T>(series: seq<seq<T>>, aff: seq<int>, padding: seq<T>, valid: seq<seq<bool>>)
    returns (r: Result<seq<seq<seq<T>>>>)
    requires IsMatrix(valid, Width(valid))
    requires |aff| > 0 && |valid| == |Values(aff)| && Width(valid) == MaxMultiplicity(aff)
    ensures r.Ok? <==> forall i :: 0 <= i < ZipLength(|series|, |padding|) ==> Assignable(valid, series[i])
    ensures r.Raise? ==> r.exc == ValueError
    ensures r.Ok? ==> |r.value| == ZipLength(|series|, |padding|) && FilledAll(series, aff, valid, padding, r.value)
  {
    var n := ZipLength(|series|, |padding|);
    var ps: seq<seq<seq<T>>> := [];
    var i := 0;
    while i < n
      invariant 0 <= i <= n && |ps| == i
      invariant FilledAll(series, aff, valid, padding, ps)
    {
      var p := ParallelFromSeries(series[i], aff, valid, padding[i]);
      if p.Raise? {
        return Raise(p.exc);
      }
      ps := ps + [Grid(p.value)];
      i := i + 1;
    }
    return Ok(ps);
  }

  /** A list fills the mask computed from it without error. */
  lemma OwnValidFills<T>(L: seq<seq<T>>, pad: T)
    requires |L| > 0
    ensures FilledFromList(L, ValidFromListform(L).value, pad).Ok?
  {
    OwnValidCount(L);
  }

  /** A list's mask has exactly one true cell per atom. */
  lemma OwnValidCount<T>(L: seq<seq<T>>)
    requires |L| > 0
    ensures |Concat(L)| == CountAll(ValidFromListform(L).value)
  {
    ConcatLength(L);
  }

  /** The mask of a contiguous affiliation is as wide as its largest system. */
  lemma ContiguousWidth(aff: seq<int>)
    requires ValidFromAffiliation(aff).Ok?
    ensures Width(ValidFromAffiliation(aff).value) == MaxMultiplicity(aff)
  {
    var counts := SystemCounts(aff);
    var n := |Values(aff)|;
    var m := MaxMultiplicity(aff);
    forall a | 0 <= a < |aff|
      ensures 0 <= aff[a] < n
    {
      assert aff[a] in Values(aff);
    }
    // every count is the count of one of the atoms, and the other way round
    var b :| 0 <= b < n && counts[b] == MaxOf(counts);
    assert b in Values(aff);
    var a0 :| 0 <= a0 < |aff| && aff[a0] == b;
    assert MaxOf(counts) <= m;
    var a1 :| 0 <= a1 < |aff| && Occurrences(aff, aff[a1]) == m;
    assert counts[aff[a1]] == m;
  }
}
