/** `list_form` of chmd/utils/batchform.py: one array per system, for every
    quantity. */
module ListForm {
  import opened Exceptions
  import opened Seqs

  /** The systems `s[affiliation == i]` of one series array, for
      `i in range(n)`; a series of another length than the affiliation
      raises IndexError, unless there are no systems to select. */
  function SystemsOf<T>(s: seq<T>, aff: seq<int>, n: nat): (r: Result<seq<seq<T>>>)
    ensures r.Raise? <==> n > 0 && |s| != |aff|
    ensures r.Raise? ==> r.exc == IndexError
    ensures r.Ok? ==> |r.value| == n
    ensures r.Ok? ==> forall i :: 0 <= i < n ==> |r.value[i]| == Occurrences(aff, i)
    ensures r.Ok? && n > 0 ==> forall i :: 0 <= i < n ==> r.value[i] == Select(s, Matches(aff, i))
  {
    if n == 0 then Ok([])
    else if |s| != |aff| then Raise(IndexError)
    else
      var r := seq(n, i requires 0 <= i < n => Select(s, Matches(aff, i)));
      assert forall i :: 0 <= i < n ==> |r[i]| == Occurrences(aff, i) by {
        forall i | 0 <= i < n ensures |r[i]| == Occurrences(aff, i) {
          CountMatches(aff, i);
        }
      }
      Ok(r)
  }

  /** `list_form.from_series`: every series array split into
      `len(unique(affiliation))` systems, in order; the first series array
      that cannot be split raises. */
  function FromSeries<T>(series: seq<seq<T>>, aff: seq<int>): (r: Result<seq<seq<seq<T>>>>)
    ensures r.Raise? <==> |Values(aff)| > 0 && exists j :: 0 <= j < |series| && |series[j]| != |aff|
    ensures r.Raise? ==> r.exc == IndexError
    ensures r.Ok? ==> |r.value| == |series|
    ensures r.Ok? ==> forall j :: 0 <= j < |series| ==> SystemsOf(series[j], aff, |Values(aff)|) == Ok(r.value[j])
  {
    var m := |series|;
    if m == 0 then Ok([])
    else
      match FromSeries(series[..m - 1], aff)
      case Raise(e) =>
        assert exists j :: 0 <= j < m && |series[j]| != |aff| by {
          var j :| 0 <= j < m - 1 && |series[..m - 1][j]| != |aff|;
          assert series[..m - 1][j] == series[j];
        }
        Raise(e)
      case Ok(done) =>
        match SystemsOf(series[m - 1], aff, |Values(aff)|)
        case Raise(e) => Raise(e)
        case Ok(x) =>
          assert forall j :: 0 <= j < m - 1 ==> series[..m - 1][j] == series[j];
          Ok(done + [x])
  }

  /** The rows `p[v] for p, v in zip(pa, valid)` of one parallel array; a row
      whose length is not its mask row's raises IndexError. */
  function RowsOf<T>(pa: seq<seq<T>>, valid: seq<seq<bool>>): (r: Result<seq<seq<T>>>)
    ensures r.Raise? <==> exists b :: 0 <= b < ZipLength(|pa|, |valid|) && |pa[b]| != |valid[b]|
    ensures r.Raise? ==> r.exc == IndexError
    ensures r.Ok? ==> |r.value| == ZipLength(|pa|, |valid|)
    ensures r.Ok? ==> forall b :: 0 <= b < |r.value| ==>
      |r.value[b]| == CountTrue(valid[b]) && r.value[b] == Select(pa[b], valid[b])
  {
    var n := ZipLength(|pa|, |valid|);
    if exists b :: 0 <= b < n && |pa[b]| != |valid[b]| then Raise(IndexError)
    else Ok(seq(n, b requires 0 <= b < n => Select(pa[b], valid[b])))
  }

  /** `list_form.from_parallel`: every parallel array cut into its systems'
      rows; the first that cannot be cut raises. */
  function FromParallel<T>(parallel: seq<seq<seq<T>>>, valid: seq<seq<bool>>): (r: Result<seq<seq<seq<T>>>>)
    ensures r.Raise? <==> exists j :: 0 <= j < |parallel| && RowsOf(parallel[j], valid).Raise?
    ensures r.Raise? ==> r.exc == IndexError
    ensures r.Ok? ==> |r.value| == |parallel|
    ensures r.Ok? ==> forall j :: 0 <= j < |parallel| ==> RowsOf(parallel[j], valid) == Ok(r.value[j])
  {
    var m := |parallel|;
    if m == 0 then Ok([])
    else
      match FromParallel(parallel[..m - 1], valid)
      case Raise(e) =>
        assert exists j :: 0 <= j < m && RowsOf(parallel[j], valid).Raise? by {
          var j :| 0 <= j < m - 1 && RowsOf(parallel[..m - 1][j], valid).Raise?;
          assert parallel[..m - 1][j] == parallel[j];
        }
        Raise(e)
      case Ok(done) =>
        match RowsOf(parallel[m - 1], valid)
        case Raise(e) => Raise(e)
        case Ok(x) =>
          assert forall j :: 0 <= j < m - 1 ==> parallel[..m - 1][j] == parallel[j];
          Ok(done + [x])
  }
}
