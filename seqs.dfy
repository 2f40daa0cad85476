/** Sequence vocabulary shared by the batch-form converter and the energy
    aggregation: concatenation along the first axis, boolean-mask selection,
    true counts, maxima and `repeat_interleave`.  Every recursive definition
    peels the LAST element, so that a prefix `xs[..b]` unfolds one step at a
    time in the proofs. */
module Seqs {

  /** Lengths of the first axis of each array of a list, `[len(x) for x in xs]`. */
  function Lengths<T>(xs: seq<seq<T>>): seq<nat>
  {
    seq(|xs|, b requires 0 <= b < |xs| => |xs[b]|)
  }

  function Sum(c: seq<nat>): nat
  {
    if |c| == 0 then 0 else Sum(c[..|c| - 1]) + c[|c| - 1]
  }

  /** The largest count, 0 for no counts (callers rule that case out, as
      `np.max` of an empty array raises). */
  function MaxOf(c: seq<nat>): (r: nat)
    ensures forall b :: 0 <= b < |c| ==> c[b] <= r
    ensures |c| > 0 ==> exists b :: 0 <= b < |c| && c[b] == r
  {
    if |c| == 0 then 0
    else
      var m := MaxOf(c[..|c| - 1]);
      assert forall b :: 0 <= b < |c| - 1 ==> c[..|c| - 1][b] == c[b];
      if c[|c| - 1] > m then c[|c| - 1] else m
  }

  /** `xp.concatenate(xs, axis=0)` of a list of arrays. */
  function Concat<T>(xs: seq<seq<T>>): seq<T>
  {
    if |xs| == 0 then [] else Concat(xs[..|xs| - 1]) + xs[|xs| - 1]
  }

  /** The concatenation is as long as all parts together. */
  lemma {:induction false} ConcatLength<T>(xs: seq<seq<T>>)
    ensures |Concat(xs)| == Sum(Lengths(xs))
  {
    if |xs| > 0 {
      assert Lengths(xs)[..|xs| - 1] == Lengths(xs[..|xs| - 1]);
      ConcatLength(xs[..|xs| - 1]);
    }
  }

  /** A list of arrays is a rectangle with `cols` columns. */
  predicate IsMatrix<T>(g: seq<seq<T>>, cols: nat)
  {
    forall b :: 0 <= b < |g| ==> |g[b]| == cols
  }

  /** An array and a 2-D mask have the same (rows, columns) shape, as
      numpy requires of a 2-D boolean index. */
  predicate SameShape<T>(p: seq<seq<T>>, valid: seq<seq<bool>>)
  {
    |p| == |valid| && forall b :: 0 <= b < |p| ==> |p[b]| == |valid[b]|
  }

  /** The second extent of a rectangle (0 when it has no rows). */
  function Width<T>(g: seq<seq<T>>): nat
  {
    if |g| == 0 then 0 else |g[0]|
  }

  function CountTrue(m: seq<bool>): (r: nat)
    ensures r <= |m|
  {
    if |m| == 0 then 0 else CountTrue(m[..|m| - 1]) + (if m[|m| - 1] then 1 else 0)
  }

  /** Number of true cells of a 2-D mask, `valid.sum()`. */
  function CountAll(v: seq<seq<bool>>): nat
  {
    if |v| == 0 then 0 else CountAll(v[..|v| - 1]) + CountTrue(v[|v| - 1])
  }

  /** Per-row true counts, `valid.sum(axis=1)`. */
  function RowCounts(v: seq<seq<bool>>): seq<nat>
  {
    seq(|v|, b requires 0 <= b < |v| => CountTrue(v[b]))
  }

  /** numpy boolean indexing of one axis, `p[m]`: the entries at the true
      positions of the mask, in order. */
  function Select<T>(p: seq<T>, m: seq<bool>): (r: seq<T>)
    requires |p| == |m|
    ensures |r| == CountTrue(m)
  {
    if |m| == 0 then []
    else Select(p[..|p| - 1], m[..|m| - 1]) + (if m[|m| - 1] then [p[|p| - 1]] else [])
  }

  /** The mask `aff == i`. */
  function Matches(aff: seq<int>, i: int): (m: seq<bool>)
    ensures |m| == |aff|
    ensures forall a :: 0 <= a < |aff| ==> (m[a] <==> aff[a] == i)
  {
    seq(|aff|, a requires 0 <= a < |aff| => aff[a] == i)
  }

  /** Occurrences of `x` in `s`. */
  function Occurrences(s: seq<int>, x: int): nat
  {
    if |s| == 0 then 0 else Occurrences(s[..|s| - 1], x) + (if s[|s| - 1] == x then 1 else 0)
  }

  /** `x` written `n` times. */
  function Repeat(x: int, n: nat): (r: seq<int>)
    ensures |r| == n
    ensures forall k :: 0 <= k < n ==> r[k] == x
  {
    seq(n, _ => x)
  }

  /** `repeat_interleave(counts)` of `chmd.math.xp`: system index b written
      `counts[b]` times, systems in order.  Its entries are system indices. */
  function RepeatInterleave(counts: seq<nat>): (r: seq<int>)
    ensures |r| == Sum(counts)
    ensures forall a :: 0 <= a < |r| ==> 0 <= r[a] < |counts|
  {
    if |counts| == 0 then []
    else RepeatInterleave(counts[..|counts| - 1]) + Repeat(|counts| - 1, counts[|counts| - 1])
  }

  /** Length of `zip(xs, ys)`. */
  function ZipLength(m: nat, n: nat): nat
  {
    if m <= n then m else n
  }

  // ---------------------------------------------------------------- lemmas

  lemma {:induction false} ConcatAppend<T>(xs: seq<seq<T>>, ys: seq<seq<T>>)
    ensures Concat(xs + ys) == Concat(xs) + Concat(ys)
  {
    if |ys| == 0 {
      assert xs + ys == xs;
    } else {
      var n, ys', zs := |ys|, ys[..|ys| - 1], xs + ys;
      assert zs[..|zs| - 1] == xs + ys' && zs[|zs| - 1] == ys[n - 1];
      ConcatAppend(xs, ys');
      assert Concat(zs) == Concat(xs) + Concat(ys') + ys[n - 1];
    }
  }

  /** Entry k of array b sits at offset `|Concat(xs[..b])| + k` of the concatenation. */
  lemma ConcatAt<T>(xs: seq<seq<T>>, b: nat, k: nat)
    requires b < |xs| && k < |xs[b]|
    ensures |Concat(xs[..b])| + k < |Concat(xs)|
    ensures Concat(xs)[|Concat(xs[..b])| + k] == xs[b][k]
  {
    assert xs == xs[..b] + ([xs[b]] + xs[b + 1..]);
    ConcatAppend(xs[..b], [xs[b]] + xs[b + 1..]);
    ConcatAppend([xs[b]], xs[b + 1..]);
    assert [xs[b]][..0] == [];
  }

  /** A slice of all arrays of a list concatenates to a slice of the concatenation. */
  lemma ConcatSlice<T>(xs: seq<seq<T>>, b: nat)
    requires b < |xs|
    ensures |Concat(xs[..b])| + |xs[b]| <= |Concat(xs)|
    ensures Concat(xs)[|Concat(xs[..b])|..|Concat(xs[..b])| + |xs[b]|] == xs[b]
  {
    assert xs[..b + 1] == xs[..b] + [xs[b]];
    assert xs == xs[..b + 1] + xs[b + 1..];
    ConcatAppend(xs[..b + 1], xs[b + 1..]);
    assert xs[..b + 1][..b] == xs[..b];
  }

  /** Every part of a concatenation sits at the offset of the parts before it. */
  lemma ConcatSlices<T>(xs: seq<seq<T>>)
    ensures forall b :: 0 <= b < |xs| ==>
      |Concat(xs[..b])| + |xs[b]| <= |Concat(xs)| &&
      Concat(xs)[|Concat(xs[..b])|..|Concat(xs[..b])| + |xs[b]|] == xs[b]
  {
    forall b | 0 <= b < |xs|
      ensures |Concat(xs[..b])| + |xs[b]| <= |Concat(xs)| &&
        Concat(xs)[|Concat(xs[..b])|..|Concat(xs[..b])| + |xs[b]|] == xs[b]
    {
      ConcatSlice(xs, b);
    }
  }

  /** Part b repeats the slice of `s` at its own offset. */
  ghost predicate TileAt<T>(xs: seq<seq<T>>, s: seq<T>, b: nat)
    requires b < |xs|
  {
    |Concat(xs[..b])| + |xs[b]| <= |s| && xs[b] == s[|Concat(xs[..b])|..|Concat(xs[..b])| + |xs[b]|]
  }

  /** Every part repeats the slice of `s` at its own offset. */
  ghost predicate Tiles<T>(xs: seq<seq<T>>, s: seq<T>)
  {
    forall b :: 0 <= b < |xs| ==> TileAt(xs, s, b)
  }

  /** Parts that tile `s` concatenate to a prefix of `s`. */
  lemma {:induction false} ConcatOfSlices<T>(xs: seq<seq<T>>, s: seq<T>)
    requires Tiles(xs, s)
    ensures |Concat(xs)| <= |s| && Concat(xs) == s[..|Concat(xs)|]
  {
    var n := |xs|;
    if n > 0 {
      var init, last := xs[..n - 1], xs[n - 1];
      assert |Concat(init)| <= |s| && Concat(init) == s[..|Concat(init)|] by {
        forall b | 0 <= b < |init|
          ensures TileAt(init, s, b)
        {
          assert TileAt(xs, s, b);
          assert init[..b] == xs[..b];
        }
        assert Tiles(init, s);
        ConcatOfSlices(init, s);
      }
      var o := |Concat(init)|;
      assert TileAt(xs, s, n - 1);
      assert o + |last| <= |s| && last == s[o..o + |last|];
      assert s[..o] + s[o..o + |last|] == s[..o + |last|];
    }
  }

  lemma {:induction false} CountTrueAppend(m1: seq<bool>, m2: seq<bool>)
    ensures CountTrue(m1 + m2) == CountTrue(m1) + CountTrue(m2)
  {
    if |m2| == 0 {
      assert m1 + m2 == m1;
    } else {
      assert (m1 + m2)[..|m1 + m2| - 1] == m1 + m2[..|m2| - 1];
      CountTrueAppend(m1, m2[..|m2| - 1]);
    }
  }

  lemma {:induction false} SelectAppend<T>(p1: seq<T>, m1: seq<bool>, p2: seq<T>, m2: seq<bool>)
    requires |p1| == |m1| && |p2| == |m2|
    ensures Select(p1 + p2, m1 + m2) == Select(p1, m1) + Select(p2, m2)
  {
    if |m2| == 0 {
      assert p1 + p2 == p1 && m1 + m2 == m1;
    } else {
      var n := |m2|;
      var p2', m2' := p2[..n - 1], m2[..n - 1];
      assert (p1 + p2)[..|p1 + p2| - 1] == p1 + p2';
      assert (m1 + m2)[..|m1 + m2| - 1] == m1 + m2';
      SelectAppend(p1, m1, p2', m2');
    }
  }

  lemma {:induction false} SelectNone<T>(p: seq<T>, m: seq<bool>)
    requires |p| == |m|
    requires forall k :: 0 <= k < |m| ==> !m[k]
    ensures Select(p, m) == []
  {
    if |m| > 0 {
      SelectNone(p[..|p| - 1], m[..|m| - 1]);
    }
  }

  lemma {:induction false} SelectAll<T>(p: seq<T>, m: seq<bool>)
    requires |p| == |m|
    requires forall k :: 0 <= k < |m| ==> m[k]
    ensures Select(p, m) == p
  {
    if |m| > 0 {
      SelectAll(p[..|p| - 1], m[..|m| - 1]);
    }
  }

  /** Selecting with a mask that is true exactly on the first `c` positions
      keeps the first `c` entries. */
  lemma SelectPrefix<T>(p: seq<T>, m: seq<bool>, c: nat)
    requires |p| == |m| && c <= |m|
    requires forall k :: 0 <= k < |m| ==> (m[k] <==> k < c)
    ensures Select(p, m) == p[..c]
    ensures CountTrue(m) == c
  {
    assert p == p[..c] + p[c..];
    assert m == m[..c] + m[c..];
    SelectAppend(p[..c], m[..c], p[c..], m[c..]);
    SelectAll(p[..c], m[..c]);
    SelectNone(p[c..], m[c..]);
  }

  /** The k-th true cell of `m` holds `s[off + rank]`, where rank is the
      number of true cells before it. */
  ghost predicate Ranked<T>(p: seq<T>, m: seq<bool>, s: seq<T>, off: nat)
  {
    |p| == |m| && off + CountTrue(m) <= |s| &&
    forall k :: 0 <= k < |m| && m[k] ==> off + CountTrue(m[..k]) < |s| && p[k] == s[off + CountTrue(m[..k])]
  }

  /** Selection then reads back that slice of `s`. */
  lemma {:induction false} SelectRanked<T>(p: seq<T>, m: seq<bool>, s: seq<T>, off: nat)
    requires Ranked(p, m, s, off)
    ensures Select(p, m) == s[off..off + CountTrue(m)]
  {
    if |m| > 0 {
      var n := |m|;
      RankedInit(p, m, s, off);
      SelectRanked(p[..n - 1], m[..n - 1], s, off);
      SelectRankedStep(p, m, s, off);
    }
  }

  /** Dropping the last cell keeps the ranking. */
  lemma RankedInit<T>(p: seq<T>, m: seq<bool>, s: seq<T>, off: nat)
    requires Ranked(p, m, s, off) && |m| > 0
    ensures Ranked(p[..|m| - 1], m[..|m| - 1], s, off)
  {
    var n := |m|;
    var p', m' := p[..n - 1], m[..n - 1];
    forall k | 0 <= k < |m'| && m'[k]
      ensures off + CountTrue(m'[..k]) < |s| && p'[k] == s[off + CountTrue(m'[..k])]
    {
      assert m'[..k] == m[..k] && p'[k] == p[k];
    }
  }

  /** One more cell: the selection grows by the next entry of `s` exactly
      when the cell is true. */
  lemma SelectRankedStep<T>(p: seq<T>, m: seq<bool>, s: seq<T>, off: nat)
    requires Ranked(p, m, s, off) && |m| > 0
    requires Select(p[..|m| - 1], m[..|m| - 1]) == s[off..off + CountTrue(m[..|m| - 1])]
    ensures Select(p, m) == s[off..off + CountTrue(m)]
  {
    var n := |m|;
    var c := CountTrue(m[..n - 1]);
    if m[n - 1] {
      assert p[n - 1] == s[off + c];
      assert s[off..off + c + 1] == s[off..off + c] + [s[off + c]];
    }
  }

  /** Entry a of `repeat_interleave(counts)` is the system it counts towards:
      the k-th copy of b sits at offset `Sum(counts[..b]) + k`. */
  lemma {:induction false} RepeatInterleaveAt(counts: seq<nat>, b: nat, k: nat)
    requires b < |counts| && k < counts[b]
    ensures Sum(counts[..b]) + k < |RepeatInterleave(counts)|
    ensures RepeatInterleave(counts)[Sum(counts[..b]) + k] == b
  {
    var n := |counts|;
    var init := counts[..n - 1];
    if b == n - 1 {
      assert counts[..b] == init;
    } else {
      assert init[..b] == counts[..b];
      RepeatInterleaveAt(init, b, k);
    }
  }

  /** An affiliation built by `repeat_interleave` is non-decreasing. */
  lemma {:induction false} RepeatInterleaveSorted(counts: seq<nat>)
    ensures forall a, a' :: 0 <= a <= a' < |RepeatInterleave(counts)| ==>
      RepeatInterleave(counts)[a] <= RepeatInterleave(counts)[a']
  {
    if |counts| > 0 {
      RepeatInterleaveSorted(counts[..|counts| - 1]);
    }
  }

  /** The run of system b in `repeat_interleave(counts)`. */
  lemma RunOf(counts: seq<nat>, b: nat)
    requires b < |counts|
    ensures Sum(counts[..b]) + counts[b] <= |RepeatInterleave(counts)|
    ensures RepeatInterleave(counts)[Sum(counts[..b])..Sum(counts[..b]) + counts[b]] == Repeat(b, counts[b])
  {
    var ri := RepeatInterleave(counts);
    var o := Sum(counts[..b]);
    assert o + counts[b] <= |ri| by {
      SumSnoc(counts, b);
      SumPrefixLe(counts, b + 1);
    }
    var run := ri[o..o + counts[b]];
    forall k | 0 <= k < counts[b]
      ensures run[k] == b
    {
      RepeatInterleaveAt(counts, b, k);
    }
    assert run == Repeat(b, counts[b]);
  }

  lemma SumSnoc(c: seq<nat>, b: nat)
    requires b < |c|
    ensures Sum(c[..b + 1]) == Sum(c[..b]) + c[b]
  {
    assert c[..b + 1][..b] == c[..b];
  }

  /** System b's atoms in the affiliation of a list form. */
  lemma AffiliationRun<T>(L: seq<seq<T>>, b: nat)
    requires b < |L|
    ensures |Concat(L[..b])| + |L[b]| <= |RepeatInterleave(Lengths(L))|
    ensures RepeatInterleave(Lengths(L))[|Concat(L[..b])|..|Concat(L[..b])| + |L[b]|] == Repeat(b, |L[b]|)
  {
    assert Lengths(L)[..b] == Lengths(L[..b]);
    ConcatLength(L[..b]);
    RunOf(Lengths(L), b);
  }

  lemma {:induction false} SumPrefixLe(c: seq<nat>, b: nat)
    requires b <= |c|
    ensures Sum(c[..b]) <= Sum(c)
  {
    if b < |c| {
      assert c[..|c| - 1][..b] == c[..b];
      SumPrefixLe(c[..|c| - 1], b);
    } else {
      assert c[..b] == c;
    }
  }

  /** `s[aff == i]` over a concatenation is the concatenation of the parts. */
  lemma MatchesAppend(a1: seq<int>, a2: seq<int>, i: int)
    ensures Matches(a1 + a2, i) == Matches(a1, i) + Matches(a2, i)
  {
  }

  /** The entries of a concatenation of arrays whose affiliation is
      `repeat_interleave` of their lengths and equals `i` are array i. */
  lemma {:induction false} SelectWhereRepeat<T>(xs: seq<seq<T>>, i: nat)
    requires i < |xs|
    ensures |Concat(xs)| == |RepeatInterleave(Lengths(xs))|
    ensures Select(Concat(xs), Matches(RepeatInterleave(Lengths(xs)), i)) == xs[i]
  {
    var n := |xs|;
    var init := xs[..n - 1];
    var last := xs[n - 1];
    assert Lengths(xs)[..n - 1] == Lengths(init);
    var ri := RepeatInterleave(Lengths(init));
    var tail := Repeat(n - 1, |last|);
    assert Lengths(xs)[n - 1] == |last|;
    assert RepeatInterleave(Lengths(xs)) == ri + tail;
    assert Concat(xs) == Concat(init) + last;
    assert |Concat(init)| == |ri| by { ConcatLength(init); }
    MatchesAppend(ri, tail, i);
    SelectAppend(Concat(init), Matches(ri, i), last, Matches(tail, i));
    if i == n - 1 {
      SelectNone(Concat(init), Matches(ri, i));
      SelectAll(last, Matches(tail, i));
    } else {
      SelectWhereRepeat(init, i);
      SelectNone(last, Matches(tail, i));
    }
  }

  /** The row sums of a mask whose row b is true exactly on `k < counts[b]`. */
  lemma RowCountsOfPrefixMask(v: seq<seq<bool>>, counts: seq<nat>)
    requires |v| == |counts|
    requires forall b :: 0 <= b < |v| ==> counts[b] <= |v[b]|
    requires forall b, k :: 0 <= b < |v| && 0 <= k < |v[b]| ==> (v[b][k] <==> k < counts[b])
    ensures RowCounts(v) == counts
  {
    forall b | 0 <= b < |v|
      ensures CountTrue(v[b]) == counts[b]
    {
      SelectPrefix(v[b], v[b], counts[b]);
    }
  }

  /** The index range `0..n-1` as a set, `set(range(n))`. */
  function Range(n: nat): (r: set<int>)
    ensures forall x :: x in r <==> 0 <= x < n
    ensures |r| == n
  {
    if n == 0 then {} else Range(n - 1) + {n - 1}
  }

  /** Affiliation values present in `aff`, the set `xp.unique(aff)` enumerates. */
  function Values(aff: seq<int>): set<int>
  {
    set a | 0 <= a < |aff| :: aff[a]
  }

  /** The values of `repeat_interleave(counts)` are the systems with a
      positive count. */
  lemma {:induction false} ValuesOfRepeat(counts: seq<nat>)
    ensures Values(RepeatInterleave(counts)) == set b | 0 <= b < |counts| && counts[b] > 0
  {
    var ri := RepeatInterleave(counts);
    var want := set b | 0 <= b < |counts| && counts[b] > 0;
    forall x | x in Values(ri) ensures x in want {
      var a :| 0 <= a < |ri| && ri[a] == x;
      // every entry lies in some system's run, whose count is then positive
      OccursInRun(counts, a);
    }
    forall b | b in want ensures b in Values(ri) {
      RepeatInterleaveAt(counts, b, 0);
    }
  }

  lemma {:induction false} OccursInRun(counts: seq<nat>, a: nat)
    requires a < |RepeatInterleave(counts)|
    ensures counts[RepeatInterleave(counts)[a]] > 0
  {
    var n := |counts|;
    var init := counts[..n - 1];
    var ri := RepeatInterleave(init);
    if a < |ri| {
      OccursInRun(init, a);
    }
  }

  // ------------------------------------------------- masks in row-major order

  /** Row-major rank of cell (b, k) among the true cells of a mask: the number
      of true cells that precede it. */
  function Rank(v: seq<seq<bool>>, b: nat, k: nat): nat
    requires b < |v| && k <= |v[b]|
  {
    CountAll(v[..b]) + CountTrue(v[b][..k])
  }

  lemma {:induction false} CountAllAppend(v1: seq<seq<bool>>, v2: seq<seq<bool>>)
    ensures CountAll(v1 + v2) == CountAll(v1) + CountAll(v2)
  {
    if |v2| == 0 {
      assert v1 + v2 == v1;
    } else {
      assert (v1 + v2)[..|v1 + v2| - 1] == v1 + v2[..|v2| - 1];
      CountAllAppend(v1, v2[..|v2| - 1]);
    }
  }

  lemma {:induction false} CountAllIsSum(v: seq<seq<bool>>)
    ensures CountAll(v) == Sum(RowCounts(v))
  {
    if |v| > 0 {
      assert RowCounts(v)[..|v| - 1] == RowCounts(v[..|v| - 1]);
      CountAllIsSum(v[..|v| - 1]);
    }
  }

  /** A true cell's rank is below the number of true cells. */
  lemma RankBound(v: seq<seq<bool>>, b: nat, k: nat)
    requires b < |v| && k < |v[b]| && v[b][k]
    ensures Rank(v, b, k) < CountAll(v)
  {
    assert v == v[..b] + [v[b]] + v[b + 1..];
    CountAllAppend(v[..b] + [v[b]], v[b + 1..]);
    CountAllAppend(v[..b], [v[b]]);
    assert [v[b]][..0] == [];
    var row := v[b];
    assert row == row[..k + 1] + row[k + 1..];
    CountTrueAppend(row[..k + 1], row[k + 1..]);
    assert row[..k + 1][..k] == row[..k];
  }

  /** Ranks advance by one at every true cell, row after row. */
  lemma RankStep(v: seq<seq<bool>>, b: nat, k: nat)
    requires b < |v| && k < |v[b]|
    ensures Rank(v, b, k + 1) == Rank(v, b, k) + (if v[b][k] then 1 else 0)
  {
    assert v[b][..k + 1][..k] == v[b][..k];
  }

  lemma RankNextRow(v: seq<seq<bool>>, b: nat)
    requires b < |v|
    ensures CountAll(v[..b + 1]) == Rank(v, b, |v[b]|)
  {
    assert v[..b + 1][..b] == v[..b];
    assert v[b][..|v[b]|] == v[b];
  }

  /** The true cell k of a mask is entry `CountTrue(m[..k])` of the selection. */
  lemma SelectAt<T>(p: seq<T>, m: seq<bool>, k: nat)
    requires |p| == |m| && k < |m| && m[k]
    ensures CountTrue(m[..k]) < |Select(p, m)|
    ensures Select(p, m)[CountTrue(m[..k])] == p[k]
  {
    assert p == p[..k + 1] + p[k + 1..];
    assert m == m[..k + 1] + m[k + 1..];
    SelectAppend(p[..k + 1], m[..k + 1], p[k + 1..], m[k + 1..]);
    assert p[..k + 1][..k] == p[..k];
    assert m[..k + 1][..k] == m[..k];
  }

  lemma {:induction false} CountMatches(aff: seq<int>, i: int)
    ensures CountTrue(Matches(aff, i)) == Occurrences(aff, i)
  {
    if |aff| > 0 {
      assert Matches(aff, i)[..|aff| - 1] == Matches(aff[..|aff| - 1], i);
      CountMatches(aff[..|aff| - 1], i);
    }
  }

  // ------------------------------------------- occurrence counts of systems

  /** `n_atoms` of `xp.unique(aff, return_counts=True)` when the systems are
      `0..n-1`: the number of atoms of each system. */
  function OccurrenceCounts(aff: seq<int>, n: nat): (c: seq<nat>)
    ensures |c| == n
    ensures forall b :: 0 <= b < n ==> c[b] == Occurrences(aff, b)
  {
    seq(n, b requires 0 <= b < n => Occurrences(aff, b))
  }

  /** Entries of `aff` in `0..n-1`. */
  function Below(aff: seq<int>, n: nat): nat
  {
    if |aff| == 0 then 0
    else Below(aff[..|aff| - 1], n) + (if 0 <= aff[|aff| - 1] < n then 1 else 0)
  }

  lemma {:induction false} BelowAll(aff: seq<int>, n: nat)
    requires forall a :: 0 <= a < |aff| ==> 0 <= aff[a] < n
    ensures Below(aff, n) == |aff|
  {
    if |aff| > 0 {
      BelowAll(aff[..|aff| - 1], n);
    }
  }

  lemma {:induction false} BelowStep(aff: seq<int>, n: nat)
    ensures Below(aff, n + 1) == Below(aff, n) + Occurrences(aff, n)
  {
    if |aff| > 0 {
      BelowStep(aff[..|aff| - 1], n);
    }
  }

  /** When every entry names one of the systems `0..n-1`, the per-system
      counts add up to the number of entries. */
  lemma {:induction false} SumOccurrenceCounts(aff: seq<int>, n: nat)
    requires forall a :: 0 <= a < |aff| ==> 0 <= aff[a] < n
    ensures Sum(OccurrenceCounts(aff, n)) == |aff|
  {
    SumBelow(aff, n);
    BelowAll(aff, n);
  }

  lemma {:induction false} SumBelow(aff: seq<int>, n: nat)
    ensures Sum(OccurrenceCounts(aff, n)) == Below(aff, n)
  {
    if n > 0 {
      assert OccurrenceCounts(aff, n)[..n - 1] == OccurrenceCounts(aff, n - 1);
      SumBelow(aff, n - 1);
      BelowStep(aff, n - 1);
    } else {
      BelowZero(aff);
    }
  }

  lemma {:induction false} BelowZero(aff: seq<int>)
    ensures Below(aff, 0) == 0
  {
    if |aff| > 0 {
      BelowZero(aff[..|aff| - 1]);
    }
  }

  lemma {:induction false} OccurrencesAppend(s1: seq<int>, s2: seq<int>, x: int)
    ensures Occurrences(s1 + s2, x) == Occurrences(s1, x) + Occurrences(s2, x)
  {
    if |s2| == 0 {
      assert s1 + s2 == s1;
    } else {
      assert (s1 + s2)[..|s1 + s2| - 1] == s1 + s2[..|s2| - 1];
      OccurrencesAppend(s1, s2[..|s2| - 1], x);
    }
  }

  lemma {:induction false} OccurrencesRepeat(y: int, c: nat, x: int)
    ensures Occurrences(Repeat(y, c), x) == if y == x then c else 0
  {
    if c > 0 {
      assert Repeat(y, c)[..c - 1] == Repeat(y, c - 1);
      OccurrencesRepeat(y, c - 1, x);
    }
  }

  /** System b occurs `counts[b]` times in `repeat_interleave(counts)`. */
  lemma {:induction false} OccurrencesOfRepeat(counts: seq<nat>, b: nat)
    requires b < |counts|
    ensures Occurrences(RepeatInterleave(counts), b) == counts[b]
  {
    var n := |counts|;
    var init := counts[..n - 1];
    OccurrencesAppend(RepeatInterleave(init), Repeat(n - 1, counts[n - 1]), b);
    OccurrencesRepeat(n - 1, counts[n - 1], b);
    if b < n - 1 {
      OccurrencesOfRepeat(init, b);
    } else {
      OccurrencesAbsent(RepeatInterleave(init), b);
    }
  }

  lemma {:induction false} OccurrencesAbsent(s: seq<int>, x: int)
    requires forall a :: 0 <= a < |s| ==> s[a] != x
    ensures Occurrences(s, x) == 0
  {
    if |s| > 0 {
      OccurrencesAbsent(s[..|s| - 1], x);
    }
  }

  lemma {:induction false} OccurrencesPositive(s: seq<int>, a: nat)
    requires a < |s|
    ensures Occurrences(s, s[a]) > 0
  {
    if a < |s| - 1 {
      OccurrencesPositive(s[..|s| - 1], a);
    }
  }
}
