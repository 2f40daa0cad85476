/** The ANI-1 energy model of chmd/models/ani.py after the networks: every
    atom reads the output of the network of its own element
    (`AtomWiseNN.forward`), and `ANI1.forward` sums the atomic outputs per
    cell and adds the linear shift.  The networks' outputs `n(x)`, one array
    of `(n_atoms, n_out)` per element, are inputs of the model, and so is
    the linear shift `EnergyShifter(ei, i1)`. */
module AniModels {
  import opened Exceptions
  import opened Seqs
  import opened Scatter
  import opened AniLinks

  /** All networks give outputs of one width, as `F.concat` demands. */
  predicate SameWidths(ws: seq<nat>)
  {
    forall k :: 0 <= k < |ws| ==> ws[k] == ws[0]
  }

  /** Row a of every network's output, `out[:, a, :]`. */
  function AtomRows(outs: seq<seq<Row>>, a: nat): (r: seq<Row>)
    requires forall k :: 0 <= k < |outs| ==> a < |outs[k]|
    ensures |r| == |outs| && forall k :: 0 <= k < |outs| ==> r[k] == outs[k][a]
  {
    seq(|outs|, k requires 0 <= k < |outs| => outs[k][a])
  }

  /** Column a of `arange(n)[:, None] == e[None, :]`: which of the n
      networks an atom of element code x selects.  The comparison is plain
      equality, so a negative or too large code selects none. */
  function Condition(n: nat, x: int): (c: seq<bool>)
    ensures |c| == n && forall k :: 0 <= k < n ==> (c[k] <==> k == x)
  {
    seq(n, k => k == x)
  }

  /** `F.where(c, rows, zeros)` along the network axis. */
  function Where(c: seq<bool>, rows: seq<Row>, w: nat): (r: seq<Row>)
    requires |c| == |rows| && IsMatrix(rows, w)
    ensures |r| == |rows| && IsMatrix(r, w)
    ensures forall k :: 0 <= k < |rows| ==> r[k] == if c[k] then rows[k] else Zeros(w)
  {
    seq(|rows|, k requires 0 <= k < |rows| => if c[k] then rows[k] else Zeros(w))
  }

  /** `AtomWiseNN.forward` on the networks' outputs `outs[k] = n_k(x)` and
      the element codes e: concatenate the outputs along a new network axis,
      keep for atom a only the output of network `e[a]`, and sum over the
      network axis.  `F.concat` of no arrays, or of arrays of different
      widths, fails chainer's type check. */
  function AtomWise(outs: seq<seq<Row>>, ws: seq<nat>, e: seq<int>): (r: Result<seq<Row>>)
    requires |ws| == |outs|
    requires forall k :: 0 <= k < |outs| ==> |outs[k]| == |e| && IsMatrix(outs[k], ws[k])
    ensures r.Raise? <==> |outs| == 0 || !SameWidths(ws)
    ensures r.Raise? ==> r.exc == InvalidType
    ensures r.Ok? ==> |r.value| == |e| && IsMatrix(r.value, ws[0])
  {
    if |outs| == 0 || !SameWidths(ws) then Raise(InvalidType)
    else
      var w := ws[0];
      assert forall a :: 0 <= a < |e| ==> IsMatrix(AtomRows(outs, a), w) by {
        forall a, k | 0 <= a < |e| && 0 <= k < |outs|
          ensures |AtomRows(outs, a)[k]| == w
        {
          assert IsMatrix(outs[k], ws[k]) && ws[k] == w;
          assert AtomRows(outs, a)[k] == outs[k][a];
        }
      }
      var rows := seq(|e|, a requires 0 <= a < |e| => SumRows(Where(Condition(|outs|, e[a]), AtomRows(outs, a), w), w));
      assert IsMatrix(rows, w);
      Ok(rows)
  }

  /** The atomic energy of atom a: column 0 of the output of its element's
      network, 0 when its code names no network. */
  function AtomEnergies(outs: seq<seq<Row>>, w: nat, e: seq<int>): (r: seq<real>)
    requires w > 0 && forall k :: 0 <= k < |outs| ==> |outs[k]| == |e| && IsMatrix(outs[k], w)
    ensures |r| == |e|
  {
    assert forall k, a :: 0 <= k < |outs| && 0 <= a < |e| ==> |outs[k][a]| == w by {
      forall k, a | 0 <= k < |outs| && 0 <= a < |e|
        ensures |outs[k][a]| == w
      {
        assert IsMatrix(outs[k], w);
      }
    }
    seq(|e|, a requires 0 <= a < |e| => if 0 <= e[a] < |outs| then outs[e[a]][a][0] else 0.0)
  }

  /** `ANI1.forward` from the networks' outputs on: the atomic outputs of
      `AtomWiseNN`, scattered onto `zeros((n_cells, n_out))` by the cell
      affiliation i1, column 0, plus the linear shift of every cell. */
  function Ani1Energy(outs: seq<seq<Row>>, ws: seq<nat>, ei: seq<int>, i1: seq<int>, nCells: nat, linear: seq<real>): (r: Result<seq<real>>)
    requires |ws| == |outs| && |i1| == |ei| && |linear| == nCells
    requires forall k :: 0 <= k < |outs| ==> |outs[k]| == |ei| && IsMatrix(outs[k], ws[k])
    ensures r.Ok? <==> (|outs| > 0 && SameWidths(ws) && ws[0] > 0 &&
      forall a :: 0 <= a < |i1| ==> InBounds(i1[a], nCells))
    ensures r.Raise? ==> r.exc == if |outs| == 0 || !SameWidths(ws) then InvalidType else IndexError
    ensures r.Ok? ==> |r.value| == nCells
  {
    match AtomWise(outs, ws, ei)
    case Raise(x) => Raise(x)
    case Ok(atomic) =>
      match SeriesEnergy(atomic, ws[0], i1, nCells)
      case Raise(x) => Raise(x)
      case Ok(energyNN) => Ok(seq(nCells, b requires 0 <= b < nCells => energyNN[b] + linear[b]))
  }

  // ---------------------------------------------------------------- lemmas

  /** A code selects exactly one network when it names one, and none
      otherwise. */
  lemma {:induction false} OneContributor(n: nat, x: int)
    ensures CountTrue(Condition(n, x)) == if 0 <= x < n then 1 else 0
  {
    if n > 0 {
      assert Condition(n, x)[..n - 1] == Condition(n - 1, x);
      OneContributor(n - 1, x);
    }
  }

  /** Summing the rows that a one-network condition keeps gives the row of
      that network, or the zero row when no network is kept. */
  lemma {:induction false} OneHotSum(rows: seq<Row>, w: nat, x: int)
    requires IsMatrix(rows, w)
    ensures SumRows(Where(Condition(|rows|, x), rows, w), w) == if 0 <= x < |rows| then rows[x] else Zeros(w)
  {
    var n := |rows|;
    if n > 0 {
      var h := Where(Condition(n, x), rows, w);
      var init := rows[..n - 1];
      assert h[..n - 1] == Where(Condition(n - 1, x), init, w);
      OneHotSum(init, w, x);
      var prev := SumRows(h[..n - 1], w);
      assert SumRows(h, w) == Add(prev, h[n - 1]);
      if x == n - 1 {
        assert prev == Zeros(w);
        AddZeros(rows[n - 1]);
      } else {
        assert h[n - 1] == Zeros(w);
        AddZeros(prev);
      }
    }
  }

  /** Row a of `AtomWiseNN.forward` is row a of the output of the network of
      atom a's element, and zero when the code names no network. */
  lemma AtomWiseSelects(outs: seq<seq<Row>>, ws: seq<nat>, e: seq<int>, a: nat)
    requires |ws| == |outs|
    requires forall k :: 0 <= k < |outs| ==> |outs[k]| == |e| && IsMatrix(outs[k], ws[k])
    requires AtomWise(outs, ws, e).Ok? && a < |e|
    ensures AtomWise(outs, ws, e).value[a] == if 0 <= e[a] < |outs| then outs[e[a]][a] else Zeros(ws[0])
  {
    var rows := AtomRows(outs, a);
    assert IsMatrix(rows, ws[0]);
    OneHotSum(rows, ws[0], e[a]);
  }

  /** Column 0 of `AtomWiseNN.forward` holds the atomic energies. */
  lemma AtomWiseColumn(outs: seq<seq<Row>>, ws: seq<nat>, e: seq<int>)
    requires |ws| == |outs|
    requires forall k :: 0 <= k < |outs| ==> |outs[k]| == |e| && IsMatrix(outs[k], ws[k])
    requires AtomWise(outs, ws, e).Ok? && ws[0] > 0
    ensures forall k :: 0 <= k < |outs| ==> IsMatrix(outs[k], ws[0])
    ensures Column(AtomWise(outs, ws, e).value, 0) == AtomEnergies(outs, ws[0], e)
  {
    forall a | 0 <= a < |e|
      ensures Column(AtomWise(outs, ws, e).value, 0)[a] == AtomEnergies(outs, ws[0], e)[a]
    {
      AtomWiseSelects(outs, ws, e, a);
    }
  }

  /** The energy of cell b is the total atomic energy of exactly the atoms
      affiliated with b, plus the cell's linear shift. */
  lemma Ani1CellEnergy(outs: seq<seq<Row>>, ws: seq<nat>, ei: seq<int>, i1: seq<int>, nCells: nat, linear: seq<real>, b: nat)
    requires |ws| == |outs| && |i1| == |ei| && |linear| == nCells
    requires forall k :: 0 <= k < |outs| ==> |outs[k]| == |ei| && IsMatrix(outs[k], ws[k])
    requires Ani1Energy(outs, ws, ei, i1, nCells, linear).Ok? && b < nCells
    ensures forall k :: 0 <= k < |outs| ==> IsMatrix(outs[k], ws[0])
    ensures Ani1Energy(outs, ws, ei, i1, nCells, linear).value[b] ==
      Total(Select(AtomEnergies(outs, ws[0], ei), Targets(i1, nCells, b))) + linear[b]
  {
    var atomic := AtomWise(outs, ws, ei).value;
    AtomWiseColumn(outs, ws, ei);
    SeriesEnergyOfSystem(atomic, ws[0], i1, nCells, b);
  }

  /** A cell without atoms has just its linear shift as energy. */
  lemma Ani1EmptyCell(outs: seq<seq<Row>>, ws: seq<nat>, ei: seq<int>, i1: seq<int>, nCells: nat, linear: seq<real>, b: nat)
    requires |ws| == |outs| && |i1| == |ei| && |linear| == nCells
    requires forall k :: 0 <= k < |outs| ==> |outs[k]| == |ei| && IsMatrix(outs[k], ws[k])
    requires Ani1Energy(outs, ws, ei, i1, nCells, linear).Ok? && b < nCells
    requires forall a :: 0 <= a < |i1| ==> Wrap(i1[a], nCells) != b
    ensures Ani1Energy(outs, ws, ei, i1, nCells, linear).value[b] == linear[b]
  {
    Ani1CellEnergy(outs, ws, ei, i1, nCells, linear, b);
    SelectNone(AtomEnergies(outs, ws[0], ei), Targets(i1, nCells, b));
  }
}
