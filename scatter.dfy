/** `F.scatter_add(seed, idx, vals)` on the CPU: a copy of `seed` to which
    `np.add.at` adds row `vals[a]` to row `idx[a]`, one contribution after
    the other.  Rows are sequences of reals; floating-point rounding is not
    modelled.  The fold is proved equal to a segmented sum: each output row
    is its seed row plus the sum of exactly the contributions aimed at it. */
module Scatter {
  import opened Exceptions
  import opened Seqs
  import opened FlattenForm

  type Row = seq<real>

  function Zeros(w: nat): (r: Row)
    ensures |r| == w && forall c :: 0 <= c < w ==> r[c] == 0.0
  {
    seq(w, _ => 0.0)
  }

  /** `xp.zeros((n, w))`. */
  function ZeroMatrix(n: nat, w: nat): (r: seq<Row>)
    ensures |r| == n && IsMatrix(r, w)
    ensures forall b :: 0 <= b < n ==> r[b] == Zeros(w)
  {
    seq(n, _ => Zeros(w))
  }

  /** Elementwise sum of two rows of one width. */
  function Add(x: Row, y: Row): (r: Row)
    requires |x| == |y|
    ensures |r| == |x| && forall c :: 0 <= c < |x| ==> r[c] == x[c] + y[c]
  {
    seq(|x|, c requires 0 <= c < |x| => x[c] + y[c])
  }

  /** The elementwise sum of all rows of a list, the zero row for none. */
  function SumRows(rows: seq<Row>, w: nat): (r: Row)
    requires IsMatrix(rows, w)
    ensures |r| == w
  {
    if |rows| == 0 then Zeros(w) else Add(SumRows(rows[..|rows| - 1], w), rows[|rows| - 1])
  }

  /** Sum of a sequence of reals. */
  function Total(c: seq<real>): real
  {
    if |c| == 0 then 0.0 else Total(c[..|c| - 1]) + c[|c| - 1]
  }

  /** Column k of a rectangle, `m[:, k]`. */
  function Column(m: seq<Row>, k: nat): (r: seq<real>)
    requires forall b :: 0 <= b < |m| ==> k < |m[b]|
    ensures |r| == |m| && forall b :: 0 <= b < |m| ==> r[b] == m[b][k]
  {
    seq(|m|, b requires 0 <= b < |m| => m[b][k])
  }

  /** numpy accepts an integer index into n rows when `-n <= i < n`. */
  predicate InBounds(i: int, n: nat)
  {
    -(n as int) <= i < n
  }

  /** The row a valid index names: negative indices count from the end. */
  function Wrap(i: int, n: nat): (r: nat)
    requires InBounds(i, n)
    ensures r < n && (0 <= i ==> r == i) && (i < 0 ==> r == i + n)
  {
    if i < 0 then i + n else i
  }

  /** The mask of contributions that land in row `row` of an n-row target. */
  function Targets(idx: seq<int>, n: nat, row: int): (m: seq<bool>)
    ensures |m| == |idx|
    ensures forall a :: 0 <= a < |idx| ==> (m[a] <==> InBounds(idx[a], n) && Wrap(idx[a], n) == row)
  {
    seq(|idx|, a requires 0 <= a < |idx| => InBounds(idx[a], n) && Wrap(idx[a], n) == row)
  }

  /** `F.scatter_add(seed, idx, vals)`: contributions are added in order; an
      index outside `[-n, n)` raises IndexError.  The values have one row of
      the seed's width per index, as every caller builds them. */
  function ScatterAdd(seed: seq<Row>, w: nat, idx: seq<int>, vals: seq<Row>): (r: Result<seq<Row>>)
    requires IsMatrix(seed, w) && IsMatrix(vals, w) && |vals| == |idx|
    ensures r.Ok? <==> forall a :: 0 <= a < |idx| ==> InBounds(idx[a], |seed|)
    ensures r.Raise? ==> r.exc == IndexError
    ensures r.Ok? ==> |r.value| == |seed| && IsMatrix(r.value, w)
  {
    if |idx| == 0 then Ok(seed)
    else
      var n := |idx|;
      var done := ScatterAdd(seed, w, idx[..n - 1], vals[..n - 1]);
      assert forall a :: 0 <= a < n - 1 ==> idx[..n - 1][a] == idx[a];
      if done.Raise? then done
      else if !InBounds(idx[n - 1], |seed|) then Raise(IndexError)
      else
        var y, t := done.value, Wrap(idx[n - 1], |seed|);
        Ok(y[t := Add(y[t], vals[n - 1])])
  }

  /** Row a of the result of reshaping an (n*k, w) array to (n, k*w): the k
      rows `a*k .. a*k+k-1` side by side. */
  function Group(s: seq<Row>, k: nat, w: nat, a: nat): (r: Row)
    requires a * k + k <= |s| && IsMatrix(s, w)
    ensures |r| == k * w
  {
    var part := s[a * k..a * k + k];
    MatrixPrefix(part, w, k);
    assert part[..k] == part;
    Concat(part)
  }

  /** `s.reshape(n, k * w)` of an (n*k, w) array. */
  function Regroup(s: seq<Row>, n: nat, k: nat, w: nat): (r: seq<Row>)
    requires |s| == n * k && IsMatrix(s, w)
    ensures |r| == n && IsMatrix(r, k * w)
  {
    seq(n, a requires 0 <= a < n =>
      assert (a + 1) * k == a * k + k;
      MulMono(a + 1, n, k);
      Group(s, k, w, a))
  }

  /** Block e of width w of a row, `r[e*w : e*w + w]`. */
  function Block(r: Row, e: nat, w: nat): (b: Row)
    requires e * w + w <= |r|
    ensures |b| == w
  {
    r[e * w..e * w + w]
  }

  /** A row with every entry halved. */
  function HalveRow(x: Row): (r: Row)
    ensures |r| == |x| && forall c :: 0 <= c < |x| ==> r[c] == x[c] / 2.0
  {
    seq(|x|, c requires 0 <= c < |x| => x[c] / 2.0)
  }

  /** Every entry halved, `x / 2`. */
  function Halve(m: seq<Row>): (r: seq<Row>)
    ensures |r| == |m| && forall b :: 0 <= b < |m| ==> r[b] == HalveRow(m[b])
  {
    seq(|m|, b requires 0 <= b < |m| => HalveRow(m[b]))
  }

  // ---------------------------------------------------------------- lemmas

  lemma AddAssoc(x: Row, y: Row, z: Row)
    requires |x| == |y| == |z|
    ensures Add(Add(x, y), z) == Add(x, Add(y, z))
  {
  }

  lemma AddZeros(x: Row)
    ensures Add(x, Zeros(|x|)) == x && Add(Zeros(|x|), x) == x
  {
  }

  /** Adding one more row to a list adds it to the sum. */
  lemma SumRowsSnoc(rows: seq<Row>, v: Row, w: nat)
    requires IsMatrix(rows, w) && |v| == w
    ensures IsMatrix(rows + [v], w) && SumRows(rows + [v], w) == Add(SumRows(rows, w), v)
  {
    assert (rows + [v])[..|rows|] == rows;
  }

  /** Scatter-add is a segmented sum: row `row` of the result is the seed's
      row plus the sum of the contributions whose index names that row, and
      it is reached only through those contributions. */
  lemma {:induction false} ScatterRow(seed: seq<Row>, w: nat, idx: seq<int>, vals: seq<Row>, row: nat)
    requires IsMatrix(seed, w) && IsMatrix(vals, w) && |vals| == |idx| && row < |seed|
    requires ScatterAdd(seed, w, idx, vals).Ok?
    ensures IsMatrix(Select(vals, Targets(idx, |seed|, row)), w)
    ensures ScatterAdd(seed, w, idx, vals).value[row] ==
      Add(seed[row], SumRows(Select(vals, Targets(idx, |seed|, row)), w))
  {
    var m := Targets(idx, |seed|, row);
    SelectRows(vals, m, w);
    if |idx| == 0 {
      assert Select(vals, m) == [];
      AddZeros(seed[row]);
    } else {
      var n := |idx|;
      var idx', vals' := idx[..n - 1], vals[..n - 1];
      var m' := Targets(idx', |seed|, row);
      assert m[..n - 1] == m';
      ScatterRow(seed, w, idx', vals', row);
      SelectRows(vals', m', w);
      var part := Select(vals', m');
      assert Select(vals, m) == part + (if m[n - 1] then [vals[n - 1]] else []);
      if m[n - 1] {
        SumRowsSnoc(part, vals[n - 1], w);
        AddAssoc(seed[row], SumRows(part, w), vals[n - 1]);
      } else {
        assert Select(vals, m) == part;
      }
    }
  }

  /** The rows a mask keeps from a rectangle have its width. */
  lemma {:induction false} SelectRows(vals: seq<Row>, m: seq<bool>, w: nat)
    requires IsMatrix(vals, w) && |m| == |vals|
    ensures IsMatrix(Select(vals, m), w)
  {
    if |m| > 0 {
      SelectRows(vals[..|vals| - 1], m[..|m| - 1], w);
    }
  }

  /** A row that no contribution names keeps its seed value; on a zero seed
      it stays zero. */
  lemma Untouched(seed: seq<Row>, w: nat, idx: seq<int>, vals: seq<Row>, row: nat)
    requires IsMatrix(seed, w) && IsMatrix(vals, w) && |vals| == |idx| && row < |seed|
    requires ScatterAdd(seed, w, idx, vals).Ok?
    requires forall a :: 0 <= a < |idx| ==> Wrap(idx[a], |seed|) != row
    ensures ScatterAdd(seed, w, idx, vals).value[row] == seed[row]
  {
    ScatterRow(seed, w, idx, vals, row);
    SelectNone(vals, Targets(idx, |seed|, row));
    AddZeros(seed[row]);
  }

  /** Column k of a sum of rows is the sum of column k. */
  lemma {:induction false} SumRowsColumn(rows: seq<Row>, w: nat, k: nat)
    requires IsMatrix(rows, w) && k < w
    ensures SumRows(rows, w)[k] == Total(Column(rows, k))
  {
    if |rows| > 0 {
      var n := |rows|;
      SumRowsColumn(rows[..n - 1], w, k);
      assert Column(rows, k)[..n - 1] == Column(rows[..n - 1], k);
    }
  }

  /** Taking a column commutes with masking rows. */
  lemma {:induction false} ColumnSelect(vals: seq<Row>, m: seq<bool>, w: nat, k: nat)
    requires IsMatrix(vals, w) && |m| == |vals| && k < w
    ensures IsMatrix(Select(vals, m), w)
    ensures Column(Select(vals, m), k) == Select(Column(vals, k), m)
  {
    SelectRows(vals, m, w);
    if |m| > 0 {
      var n := |m|;
      ColumnSelect(vals[..n - 1], m[..n - 1], w, k);
      assert Column(vals, k)[..n - 1] == Column(vals[..n - 1], k);
      SelectRows(vals[..n - 1], m[..n - 1], w);
    }
  }

  /** Block e of row a of a regrouped array is row `a*k + e` of the original. */
  lemma RegroupBlock(s: seq<Row>, n: nat, k: nat, w: nat, a: nat, e: nat)
    requires |s| == n * k && IsMatrix(s, w) && a < n && e < k
    ensures 0 <= a * k + e < |s| && e * w + w <= k * w
    ensures Block(Regroup(s, n, k, w)[a], e, w) == s[a * k + e]
  {
    SlotBound(a, e, n, k);
    assert (e + 1) * w == e * w + w;
    MulMono(e + 1, k, w);
    assert (a + 1) * k == a * k + k;
    MulMono(a + 1, n, k);
    var part := s[a * k..a * k + k];
    assert Regroup(s, n, k, w)[a] == Concat(part);
    MatrixPrefix(part, w, e);
    ConcatSlice(part, e);
  }

  /** Scatter onto a zero seed of `rows = n*k` rows, then regroup to n
      rows: block e of row a is the sum of the contributions aimed at row
      `row = a*k + e`, for a mask `m` known to pick those contributions. */
  lemma ScatteredBlock(n: nat, k: nat, rows: int, w: nat, idx: seq<int>, vals: seq<Row>, a: nat, e: nat, row: int, m: seq<bool>)
    requires rows == n * k && row == a * k + e
    requires IsMatrix(vals, w) && |vals| == |idx| && a < n && e < k
    requires ScatterAdd(ZeroMatrix(rows, w), w, idx, vals).Ok? && Targets(idx, rows, row) == m
    ensures 0 <= row < rows && e * w + w <= k * w
    ensures IsMatrix(Select(vals, m), w)
    ensures Block(Regroup(ScatterAdd(ZeroMatrix(rows, w), w, idx, vals).value, n, k, w)[a], e, w) ==
      SumRows(Select(vals, m), w)
  {
    var seed := ZeroMatrix(rows, w);
    var s := ScatterAdd(seed, w, idx, vals).value;
    RegroupBlock(s, n, k, w, a, e);
    ScatterRow(seed, w, idx, vals, row);
    AddZeros(SumRows(Select(vals, m), w));
  }

  /** Halving commutes with taking a block of a row. */
  lemma HalveBlock(g: seq<Row>, a: nat, e: nat, w: nat)
    requires a < |g| && e * w + w <= |g[a]|
    ensures Block(Halve(g)[a], e, w) == HalveRow(Block(g[a], e, w))
  {
  }

  /** The same block after halving every entry. */
  lemma HalvedScatteredBlock(n: nat, k: nat, rows: int, w: nat, idx: seq<int>, vals: seq<Row>, a: nat, e: nat, row: int, m: seq<bool>)
    requires rows == n * k && row == a * k + e
    requires IsMatrix(vals, w) && |vals| == |idx| && a < n && e < k
    requires ScatterAdd(ZeroMatrix(rows, w), w, idx, vals).Ok? && Targets(idx, rows, row) == m
    ensures 0 <= row < rows && e * w + w <= k * w
    ensures IsMatrix(Select(vals, m), w)
    ensures Block(Halve(Regroup(ScatterAdd(ZeroMatrix(rows, w), w, idx, vals).value, n, k, w))[a], e, w) ==
      HalveRow(SumRows(Select(vals, m), w))
  {
    ScatteredBlock(n, k, rows, w, idx, vals, a, e, row, m);
    HalveBlock(Regroup(ScatterAdd(ZeroMatrix(rows, w), w, idx, vals).value, n, k, w), a, e, w);
  }
}
