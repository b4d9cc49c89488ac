/** Tiered random DAG synthesis and its degree-based complexity metrics. */
module GraphUtils {
  import opened Common
  import PublicUtils

  // ---------------------------------------------------------------------------
  // Tiers: contiguous index ranges, one per entry of the graph shape
  // ---------------------------------------------------------------------------

  /** The first node index of tier t: the sizes of the tiers before it, summed. */
  function Offset(shape: seq<nat>, t: nat): nat
    requires t <= |shape|
  {
    if t == 0 then 0 else Offset(shape, t - 1) + shape[t - 1]
  }

  function NodeCount(shape: seq<nat>): nat {
    Offset(shape, |shape|)
  }

  lemma {:induction false} OffsetMono(shape: seq<nat>, s: nat, t: nat)
    requires s <= t <= |shape|
    ensures Offset(shape, s) <= Offset(shape, t)
    decreases t - s
  {
    if s < t {
      OffsetMono(shape, s, t - 1);
    }
  }

  function TierFrom(shape: seq<nat>, v: nat, t: nat): (r: nat)
    requires t <= |shape| && Offset(shape, t) <= v < NodeCount(shape)
    ensures t <= r < |shape| && Offset(shape, r) <= v < Offset(shape, r + 1)
    decreases |shape| - t
  {
    if v < Offset(shape, t + 1) then t else TierFrom(shape, v, t + 1)
  }

  /** The tier that holds node v. */
  function TierOf(shape: seq<nat>, v: nat): (r: nat)
    requires v < NodeCount(shape)
    ensures r < |shape| && Offset(shape, r) <= v < Offset(shape, r + 1)
  {
    TierFrom(shape, v, 0)
  }

  /** The tiers partition the nodes: a node lies in tier t exactly when t is its tier. */
  lemma TierOfUnique(shape: seq<nat>, v: nat, t: nat)
    requires t < |shape| && Offset(shape, t) <= v < Offset(shape, t + 1)
    ensures v < NodeCount(shape) && TierOf(shape, v) == t
  {
    OffsetMono(shape, t + 1, |shape|);
    var u := TierOf(shape, v);
    if u < t {
      OffsetMono(shape, u + 1, t);
    } else if u > t {
      OffsetMono(shape, t + 1, u);
    }
  }

  /** Nodes of an earlier tier have smaller indices. */
  lemma TierOrder(shape: seq<nat>, a: nat, b: nat)
    requires a < NodeCount(shape) && b < NodeCount(shape)
    requires TierOf(shape, a) < TierOf(shape, b)
    ensures a < b
  {
    OffsetMono(shape, TierOf(shape, a) + 1, TierOf(shape, b));
  }

  /** Python's node_tier construction: slices of list(range(node_n)) taken with a moving cursor. */
  method BuildTiers(shape: seq<nat>) returns (nodeList: seq<nat>, nodeTier: seq<seq<nat>>)
    ensures nodeList == Range(0, NodeCount(shape))
    ensures |nodeTier| == |shape|
    ensures forall t :: 0 <= t < |shape| ==> nodeTier[t] == Range(Offset(shape, t), Offset(shape, t + 1))
  {
    nodeList := Range(0, NodeCount(shape));
    nodeTier := [];
    var idx := 0;
    for t := 0 to |shape|
      invariant |nodeTier| == t && idx == Offset(shape, t)
      invariant forall s :: 0 <= s < t ==> nodeTier[s] == Range(Offset(shape, s), Offset(shape, s + 1))
    {
      OffsetMono(shape, t + 1, |shape|);
      RangeSlice(NodeCount(shape), idx, idx + shape[t]);
      assert Offset(shape, t + 1) == idx + shape[t];
      ghost var before := nodeTier;
      nodeTier := nodeTier + [nodeList[idx..idx + shape[t]]];
      assert nodeTier[t] == Range(Offset(shape, t), Offset(shape, t + 1));
      assert forall s :: 0 <= s < t ==> nodeTier[s] == before[s];
      idx := idx + shape[t];
    }
  }

  /** A slice of 0 .. n-1 is the range of its bounds. */
  lemma RangeSlice(n: nat, a: nat, b: nat)
    requires a <= b <= n
    ensures Range(0, n)[a..b] == Range(a, b)
  {
  }

  function Flatten(ss: seq<seq<nat>>): seq<nat> {
    if |ss| == 0 then [] else Flatten(ss[..|ss| - 1]) + ss[|ss| - 1]
  }

  lemma RangeAppend(a: nat, b: nat, c: nat)
    requires a <= b <= c
    ensures Range(a, b) + Range(b, c) == Range(a, c)
  {
  }

  /** Read one after the other, the tiers list every node once, in ascending order. */
  lemma {:induction false} TiersInOrder(shape: seq<nat>, tiers: seq<seq<nat>>, k: nat)
    requires k <= |tiers| == |shape|
    requires forall t :: 0 <= t < |shape| ==> tiers[t] == Range(Offset(shape, t), Offset(shape, t + 1))
    ensures Flatten(tiers[..k]) == Range(0, Offset(shape, k))
  {
    if k > 0 {
      TiersInOrder(shape, tiers, k - 1);
      assert tiers[..k][..k - 1] == tiers[..k - 1];
      RangeAppend(0, Offset(shape, k - 1), Offset(shape, k));
    }
  }

  // ---------------------------------------------------------------------------
  // One node visit: the motif and the random choices, supplied by the caller
  // ---------------------------------------------------------------------------

  /** Which branch the uniform draw selects: below threshold[0] a chain, below
      threshold[1] a fork, below threshold[2] a collider, otherwise nothing. */
  datatype Motif = Chain | Fork | Collider | Idle

  /** The random choices of one visit: the two sampled tiers in the order sampled,
      and the position of the chosen node within the lower and the higher of them. */
  datatype Draw = Draw(motif: Motif, tierA: nat, tierB: nat, pickA: nat, pickB: nat)

  function Lo(d: Draw): nat { if d.tierA <= d.tierB then d.tierA else d.tierB }
  function Hi(d: Draw): nat { if d.tierA <= d.tierB then d.tierB else d.tierA }

  /** Whether the visit takes random.sample targets at all. */
  predicate Samples(tierN: nat, t: nat, d: Draw) {
    match d.motif
    case Chain => true
    case Fork => t != tierN - 1
    case Collider => t != 0
    case Idle => false
  }

  /** The sampled tiers lie in the ranges the code samples from (without replacement
      for the two chain cases that draw two tiers from one range), and the chosen nodes exist. */
  ghost predicate ValidDraw(shape: seq<nat>, t: nat, d: Draw) {
    var tierN := |shape|;
    var a, b := d.tierA, d.tierB;
    (match d.motif
     case Chain =>
       if t == 0 then 1 <= a < tierN && 1 <= b < tierN && a != b
       else if t == tierN - 1 then a < tierN - 1 && b < tierN - 1 && a != b
       else a < t && t < b < tierN
     case Fork => t != tierN - 1 ==> t < a < tierN && t < b < tierN
     case Collider => t != 0 ==> a < t && b < t
     case Idle => true) &&
    (Samples(tierN, t, d) ==>
       Lo(d) < tierN && Hi(d) < tierN && d.pickA < shape[Lo(d)] && d.pickB < shape[Hi(d)])
  }

  /** Every node's draw in one sweep is valid for that node's tier. */
  ghost predicate ValidRow(shape: seq<nat>, row: seq<Draw>) {
    |row| == NodeCount(shape) && forall v :: 0 <= v < |row| ==> DrawFits(shape, row, v)
  }

  /** Node v's draw is valid for v's tier. */
  ghost predicate DrawFits(shape: seq<nat>, row: seq<Draw>, v: nat) {
    v < |row| && v < NodeCount(shape) && ValidDraw(shape, TierOf(shape, v), row[v])
  }

  ghost predicate ValidDraws(shape: seq<nat>, draws: seq<seq<Draw>>) {
    forall i :: 0 <= i < |draws| ==> ValidRow(shape, draws[i])
  }

  ghost predicate WellShaped(shape: seq<nat>) {
    |shape| >= 3 && forall t :: 0 <= t < |shape| ==> shape[t] > 0
  }

  /** node_tier[tier][pick] for a tier that exists. */
  function NodeAt(shape: seq<nat>, tier: nat, pick: nat): nat {
    if tier < |shape| then Offset(shape, tier) + pick else 0
  }

  /** The edges one visit of node v in tier t writes, in the order written. */
  function VisitEdges(shape: seq<nat>, t: nat, v: nat, d: Draw): (es: seq<(nat, nat)>) {
    var tierN := |shape|;
    var x := NodeAt(shape, Lo(d), d.pickA);
    var y := NodeAt(shape, Hi(d), d.pickB);
    match d.motif
    case Chain =>
      if t == 0 then [(v, x), (x, y)]
      else if t == tierN - 1 then [(x, y), (y, v)]
      else [(x, v), (v, y)]
    case Fork => if t != tierN - 1 then [(v, x), (v, y)] else []
    case Collider => if t != 0 then [(x, v), (y, v)] else []
    case Idle => []
  }

  /** Every edge a visit writes goes from a strictly earlier tier to a strictly later one,
      and a visit writes at most two edges, none at all when the draw is idle, a fork is
      drawn on the last tier or a collider on the first. */
  lemma VisitEdgesForward(shape: seq<nat>, t: nat, v: nat, d: Draw)
    requires WellShaped(shape) && t < |shape| && Offset(shape, t) <= v < Offset(shape, t + 1)
    requires ValidDraw(shape, t, d)
    ensures |VisitEdges(shape, t, v, d)| <= 2
    ensures !Samples(|shape|, t, d) ==> VisitEdges(shape, t, v, d) == []
    ensures forall k :: 0 <= k < |VisitEdges(shape, t, v, d)| ==>
      var (a, b) := VisitEdges(shape, t, v, d)[k];
      a < NodeCount(shape) && b < NodeCount(shape) && TierOf(shape, a) < TierOf(shape, b)
  {
    TierOfUnique(shape, v, t);
    if Samples(|shape|, t, d) {
      var x := NodeAt(shape, Lo(d), d.pickA);
      var y := NodeAt(shape, Hi(d), d.pickB);
      TierOfUnique(shape, x, Lo(d));
      TierOfUnique(shape, y, Hi(d));
    }
  }

  // ---------------------------------------------------------------------------
  // The generator as a function of its draws
  // ---------------------------------------------------------------------------

  function Zeros(n: nat): (m: Matrix)
    ensures |m| == n && IsSquare(m)
  {
    seq(n, i => seq(n, j => 0))
  }

  /** matrix[a][b] = 1 */
  function SetOne(m: Matrix, a: nat, b: nat): Matrix {
    if a < |m| && b < |m[a]| then m[a := m[a][b := 1]] else m
  }

  function AddEdges(m: Matrix, es: seq<(nat, nat)>): Matrix {
    if |es| == 0 then m else SetOne(AddEdges(m, es[..|es| - 1]), es[|es| - 1].0, es[|es| - 1].1)
  }

  function Visit(m: Matrix, shape: seq<nat>, t: nat, v: nat, d: Draw): Matrix {
    AddEdges(m, VisitEdges(shape, t, v, d))
  }

  /** Visits of the first j nodes of tier t, in ascending order. */
  function VisitTier(m: Matrix, shape: seq<nat>, row: seq<Draw>, t: nat, j: nat): Matrix
    requires t < |shape| && j <= shape[t] && |row| == NodeCount(shape)
  {
    if j == 0 then m
    else
      var v := Offset(shape, t) + j - 1;
      OffsetMono(shape, t + 1, |shape|);
      Visit(VisitTier(m, shape, row, t, j - 1), shape, t, v, row[v])
  }

  /** One sweep over tiers 0 .. t-1. */
  function SweepTiers(m: Matrix, shape: seq<nat>, row: seq<Draw>, t: nat): Matrix
    requires t <= |shape| && |row| == NodeCount(shape)
  {
    if t == 0 then m else VisitTier(SweepTiers(m, shape, row, t - 1), shape, row, t - 1, shape[t - 1])
  }

  /** The first i sweeps. */
  function Iterate(m: Matrix, shape: seq<nat>, draws: seq<seq<Draw>>, i: nat): Matrix
    requires i <= |draws| && forall k :: 0 <= k < |draws| ==> |draws[k]| == NodeCount(shape)
  {
    if i == 0 then m else SweepTiers(Iterate(m, shape, draws, i - 1), shape, draws[i - 1], |shape|)
  }

  /** The matrix dag_gen returns for the given draws. */
  function DagMatrix(shape: seq<nat>, draws: seq<seq<Draw>>): Matrix
    requires forall k :: 0 <= k < |draws| ==> |draws[k]| == NodeCount(shape)
  {
    Iterate(Zeros(NodeCount(shape)), shape, draws, |draws|)
  }

  // ---------------------------------------------------------------------------
  // What the generator guarantees
  // ---------------------------------------------------------------------------

  /** An N x N 0/1 matrix whose every edge goes from an earlier tier to a later one. */
  ghost predicate TierForward(shape: seq<nat>, m: Matrix) {
    |m| == NodeCount(shape) && IsSquare(m) && ZeroOne(m) &&
    forall a, b :: 0 <= a < |m| && 0 <= b < |m| && m[a][b] != 0 ==> TierOf(shape, a) < TierOf(shape, b)
  }

  ghost predicate EdgesForward(shape: seq<nat>, es: seq<(nat, nat)>) {
    forall k :: 0 <= k < |es| ==>
      es[k].0 < NodeCount(shape) && es[k].1 < NodeCount(shape) && TierOf(shape, es[k].0) < TierOf(shape, es[k].1)
  }

  lemma {:induction false} AddEdgesForward(shape: seq<nat>, m: Matrix, es: seq<(nat, nat)>)
    requires TierForward(shape, m) && EdgesForward(shape, es)
    ensures TierForward(shape, AddEdges(m, es))
  {
    if |es| > 0 {
      AddEdgesForward(shape, m, es[..|es| - 1]);
    }
  }

  lemma VisitForward(shape: seq<nat>, m: Matrix, t: nat, v: nat, d: Draw)
    requires WellShaped(shape) && TierForward(shape, m)
    requires t < |shape| && Offset(shape, t) <= v < Offset(shape, t + 1) && ValidDraw(shape, t, d)
    ensures TierForward(shape, Visit(m, shape, t, v, d))
  {
    VisitEdgesForward(shape, t, v, d);
    AddEdgesForward(shape, m, VisitEdges(shape, t, v, d));
  }

  /** The draw a sweep holds for a node of tier t is valid for tier t. */
  lemma RowDraw(shape: seq<nat>, row: seq<Draw>, t: nat, v: nat)
    requires ValidRow(shape, row) && t < |shape| && Offset(shape, t) <= v < Offset(shape, t + 1)
    ensures v < |row| && ValidDraw(shape, t, row[v])
  {
    TierOfUnique(shape, v, t);
    assert DrawFits(shape, row, v);
  }

  lemma {:induction false} VisitTierForward(m: Matrix, shape: seq<nat>, row: seq<Draw>, t: nat, j: nat)
    requires WellShaped(shape) && ValidRow(shape, row) && t < |shape| && j <= shape[t]
    requires TierForward(shape, m)
    ensures TierForward(shape, VisitTier(m, shape, row, t, j))
  {
    if j > 0 {
      var v := Offset(shape, t) + j - 1;
      var prev := VisitTier(m, shape, row, t, j - 1);
      VisitTierForward(m, shape, row, t, j - 1);
      assert Offset(shape, t + 1) == Offset(shape, t) + shape[t];
      RowDraw(shape, row, t, v);
      VisitForward(shape, prev, t, v, row[v]);
      VisitTierStep(m, shape, row, t, j - 1);
    }
  }

  lemma {:induction false} SweepForward(m: Matrix, shape: seq<nat>, row: seq<Draw>, t: nat)
    requires WellShaped(shape) && ValidRow(shape, row) && t <= |shape|
    requires TierForward(shape, m)
    ensures TierForward(shape, SweepTiers(m, shape, row, t))
  {
    if t > 0 {
      SweepForward(m, shape, row, t - 1);
      VisitTierForward(SweepTiers(m, shape, row, t - 1), shape, row, t - 1, shape[t - 1]);
    }
  }

  lemma {:induction false} IterateForward(m: Matrix, shape: seq<nat>, draws: seq<seq<Draw>>, i: nat)
    requires WellShaped(shape) && ValidDraws(shape, draws) && i <= |draws|
    requires TierForward(shape, m)
    ensures TierForward(shape, Iterate(m, shape, draws, i))
  {
    if i > 0 {
      IterateForward(m, shape, draws, i - 1);
      SweepForward(Iterate(m, shape, draws, i - 1), shape, draws[i - 1], |shape|);
    }
  }

  /** No directed cycle: along any walk the node index strictly increases. */
  ghost predicate Acyclic(m: Matrix) {
    forall q: seq<nat> :: |q| >= 2 && PublicUtils.WalkFrom(m, q, 0) ==> q[0] != q[|q| - 1]
  }

  lemma {:induction false} WalkIncreases(m: Matrix, q: seq<nat>, k: nat)
    requires StrictlyUpper(m) && PublicUtils.WalkFrom(m, q, 0) && 0 < k < |q|
    ensures q[0] < q[k]
  {
    if k > 1 {
      WalkIncreases(m, q, k - 1);
    }
    assert m[q[k - 1]][q[k]] != 0;
  }

  lemma UpperIsAcyclic(m: Matrix)
    requires StrictlyUpper(m)
    ensures Acyclic(m)
  {
    forall q: seq<nat> | |q| >= 2 && PublicUtils.WalkFrom(m, q, 0)
      ensures q[0] != q[|q| - 1]
    {
      WalkIncreases(m, q, |q| - 1);
    }
  }

  /** Every matrix dag_gen produces is a 0/1 matrix whose edges all go from an earlier
      tier to a later one; hence it is strictly upper-triangular and acyclic. */
  lemma DagMatrixForward(shape: seq<nat>, draws: seq<seq<Draw>>)
    requires WellShaped(shape) && ValidDraws(shape, draws)
    ensures TierForward(shape, DagMatrix(shape, draws))
    ensures StrictlyUpper(DagMatrix(shape, draws))
    ensures Acyclic(DagMatrix(shape, draws))
  {
    var z := Zeros(NodeCount(shape));
    IterateForward(z, shape, draws, |draws|);
    var m := DagMatrix(shape, draws);
    forall a, b | 0 <= a < |m| && 0 <= b < |m[a]| && m[a][b] != 0 ensures a < b {
      TierOrder(shape, a, b);
    }
    UpperIsAcyclic(m);
  }

  /** m' has the shape of m and differs from it only by cells set to 1. */
  ghost predicate Grows(m: Matrix, m': Matrix) {
    |m'| == |m| && (forall a :: 0 <= a < |m| ==> |m'[a]| == |m[a]|) &&
    forall a, b :: 0 <= a < |m| && 0 <= b < |m[a]| ==> CellGrows(m, m', a, b)
  }

  /** Cell (a, b) of m' is the one of m, or 1. */
  ghost predicate CellGrows(m: Matrix, m': Matrix, a: nat, b: nat) {
    a < |m| && a < |m'| && b < |m[a]| && b < |m'[a]| && (m'[a][b] == m[a][b] || m'[a][b] == 1)
  }

  lemma {:induction false} AddEdgesGrows(m: Matrix, es: seq<(nat, nat)>)
    ensures Grows(m, AddEdges(m, es))
    ensures forall a, b :: 0 <= a < |m| && 0 <= b < |m[a]| && AddEdges(m, es)[a][b] != m[a][b] ==> (a, b) in es
  {
    if |es| > 0 {
      var init := es[..|es| - 1];
      var prev := AddEdges(m, init);
      AddEdgesGrows(m, init);
      var (x, y) := es[|es| - 1];
      assert AddEdges(m, es) == SetOne(prev, x, y);
      forall a, b | 0 <= a < |m| && 0 <= b < |m[a]| ensures CellGrows(m, SetOne(prev, x, y), a, b) {
        assert CellGrows(m, prev, a, b);
      }
      forall a, b | 0 <= a < |m| && 0 <= b < |m[a]| && SetOne(prev, x, y)[a][b] != m[a][b] ensures (a, b) in es {
        assert CellGrows(m, prev, a, b);
        if prev[a][b] != m[a][b] {
          assert (a, b) in init;
        }
      }
    }
  }

  /** A visit only sets cells to 1, and only the (at most two) cells of the edges it writes. */
  lemma VisitGrows(m: Matrix, shape: seq<nat>, t: nat, v: nat, d: Draw)
    ensures Grows(m, Visit(m, shape, t, v, d))
    ensures |VisitEdges(shape, t, v, d)| <= 2
    ensures forall a, b :: 0 <= a < |m| && 0 <= b < |m[a]| && Visit(m, shape, t, v, d)[a][b] != m[a][b] ==>
      (a, b) in VisitEdges(shape, t, v, d)
  {
    AddEdgesGrows(m, VisitEdges(shape, t, v, d));
  }

  lemma {:induction false} VisitTierGrows(m: Matrix, shape: seq<nat>, row: seq<Draw>, t: nat, j: nat)
    requires t < |shape| && j <= shape[t] && |row| == NodeCount(shape)
    ensures Grows(m, VisitTier(m, shape, row, t, j))
  {
    if j > 0 {
      var v := Offset(shape, t) + j - 1;
      OffsetMono(shape, t + 1, |shape|);
      var prev := VisitTier(m, shape, row, t, j - 1);
      VisitTierGrows(m, shape, row, t, j - 1);
      var next := Visit(prev, shape, t, v, row[v]);
      VisitGrows(prev, shape, t, v, row[v]);
      assert VisitTier(m, shape, row, t, j) == next;
      GrowsTransitive(m, prev, next);
    }
  }

  lemma GrowsTransitive(m: Matrix, m': Matrix, m'': Matrix)
    requires Grows(m, m') && Grows(m', m'')
    ensures Grows(m, m'')
  {
    forall a, b | 0 <= a < |m| && 0 <= b < |m[a]| ensures CellGrows(m, m'', a, b) {
      assert CellGrows(m, m', a, b);
      assert CellGrows(m', m'', a, b);
    }
  }

  lemma {:induction false} SweepGrows(m: Matrix, shape: seq<nat>, row: seq<Draw>, t: nat)
    requires t <= |shape| && |row| == NodeCount(shape)
    ensures Grows(m, SweepTiers(m, shape, row, t))
  {
    if t > 0 {
      var prev := SweepTiers(m, shape, row, t - 1);
      SweepGrows(m, shape, row, t - 1);
      VisitTierGrows(prev, shape, row, t - 1, shape[t - 1]);
      GrowsTransitive(m, prev, SweepTiers(m, shape, row, t));
    }
  }

  /** Across sweeps the edge set only grows: sweep i + 1 keeps the shape and every edge of
      sweep i, and changes no cell except to 1. */
  lemma EdgesPersist(shape: seq<nat>, draws: seq<seq<Draw>>, i: nat)
    requires i < |draws| && forall k :: 0 <= k < |draws| ==> |draws[k]| == NodeCount(shape)
    ensures Grows(Iterate(Zeros(NodeCount(shape)), shape, draws, i), Iterate(Zeros(NodeCount(shape)), shape, draws, i + 1))
  {
    SweepGrows(Iterate(Zeros(NodeCount(shape)), shape, draws, i), shape, draws[i], |shape|);
  }

  // ---------------------------------------------------------------------------
  // dag_gen on a mutable matrix
  // ---------------------------------------------------------------------------

  /** The contents of a two-dimensional array as a matrix value. */
  function Snapshot(m: array2<int>): (r: Matrix)
    reads m
    ensures |r| == m.Length0 && forall i :: 0 <= i < |r| ==> |r[i]| == m.Length1
    ensures forall i, j :: 0 <= i < m.Length0 && 0 <= j < m.Length1 ==> r[i][j] == m[i, j]
  {
    seq(m.Length0, i requires 0 <= i < m.Length0 reads m =>
      seq(m.Length1, j requires 0 <= j < m.Length1 reads m => m[i, j]))
  }

  /** matrix[a][b] = 1 in place. */
  method SetCell(m: array2<int>, a: nat, b: nat)
    requires a < m.Length0 && b < m.Length1
    modifies m
    ensures Snapshot(m) == SetOne(old(Snapshot(m)), a, b)
  {
    ghost var before := Snapshot(m);
    m[a, b] := 1;
    assert Snapshot(m) == SetOne(before, a, b) by {
      var after := SetOne(before, a, b);
      forall i | 0 <= i < m.Length0 ensures Snapshot(m)[i] == after[i] {
      }
    }
  }

  lemma AddTwoEdges(m: Matrix, es: seq<(nat, nat)>)
    requires |es| == 2
    ensures AddEdges(m, es) == SetOne(SetOne(m, es[0].0, es[0].1), es[1].0, es[1].1)
  {
    var m1 := SetOne(m, es[0].0, es[0].1);
    assert es[..1][..0] == es[..0];
    assert AddEdges(m, es[..1]) == SetOne(AddEdges(m, es[..0]), es[0].0, es[0].1);
    assert AddEdges(m, es[..0]) == m;
    assert AddEdges(m, es) == SetOne(AddEdges(m, es[..1]), es[1].0, es[1].1);
  }

  /** matrix[a][b] = 1 followed by matrix[c][d] = 1. */
  method SetTwo(m: array2<int>, e0: (nat, nat), e1: (nat, nat))
    requires e0.0 < m.Length0 && e0.1 < m.Length1 && e1.0 < m.Length0 && e1.1 < m.Length1
    modifies m
    ensures Snapshot(m) == AddEdges(old(Snapshot(m)), [e0, e1])
  {
    AddTwoEdges(Snapshot(m), [e0, e1]);
    SetCell(m, e0.0, e0.1);
    SetCell(m, e1.0, e1.1);
  }

  /** Tier s of the tiers list is the index range of tier s of the shape. */
  ghost predicate TierIs(shape: seq<nat>, nodeTier: seq<seq<nat>>, s: nat) {
    s < |shape| && s < |nodeTier| && nodeTier[s] == Range(Offset(shape, s), Offset(shape, s + 1))
  }

  /** The tiers list BuildTiers produces, stated tier by tier. */
  ghost predicate TiersAre(shape: seq<nat>, nodeTier: seq<seq<nat>>) {
    |nodeTier| == |shape| && forall s :: 0 <= s < |shape| ==> TierIs(shape, nodeTier, s)
  }

  /** What every sweep of the generator relies on: the shape, one sweep's draws, and the tiers. */
  ghost predicate SweepInputs(shape: seq<nat>, nodeTier: seq<seq<nat>>, row: seq<Draw>) {
    WellShaped(shape) && ValidRow(shape, row) && TiersAre(shape, nodeTier)
  }

  /** node_tier[lo][pickA] and node_tier[hi][pickB] exist, are the nodes VisitEdges
      names, and like v lie below N. */
  lemma DrawnNodes(shape: seq<nat>, nodeTier: seq<seq<nat>>, t: nat, v: nat, d: Draw)
    requires WellShaped(shape) && t < |shape| && Offset(shape, t) <= v < Offset(shape, t + 1)
    requires ValidDraw(shape, t, d) && Samples(|shape|, t, d)
    requires TiersAre(shape, nodeTier)
    ensures Lo(d) < |shape| && d.pickA < |nodeTier[Lo(d)]| && Hi(d) < |shape| && d.pickB < |nodeTier[Hi(d)]|
    ensures nodeTier[Lo(d)][d.pickA] == NodeAt(shape, Lo(d), d.pickA) < NodeCount(shape)
    ensures nodeTier[Hi(d)][d.pickB] == NodeAt(shape, Hi(d), d.pickB) < NodeCount(shape)
    ensures v < NodeCount(shape)
  {
    var lo, hi := Lo(d), Hi(d);
    assert TierIs(shape, nodeTier, lo) && TierIs(shape, nodeTier, hi);
    TierOfUnique(shape, v, t);
    TierOfUnique(shape, Offset(shape, lo) + d.pickA, lo);
    TierOfUnique(shape, Offset(shape, hi) + d.pickB, hi);
  }

  /** One pass of the innermost loop body: the branch the motif selects, with the two
      sampled tiers sorted and one node taken from each; the branch names the two
      cells it sets. */
  method VisitNode(matrix: array2<int>, shape: seq<nat>, nodeTier: seq<seq<nat>>, t: nat, v: nat, d: Draw)
    requires WellShaped(shape) && t < |shape| && Offset(shape, t) <= v < Offset(shape, t + 1)
    requires ValidDraw(shape, t, d)
    requires TiersAre(shape, nodeTier)
    requires matrix.Length0 == NodeCount(shape) && matrix.Length1 == NodeCount(shape)
    modifies matrix
    ensures Snapshot(matrix) == Visit(old(Snapshot(matrix)), shape, t, v, d)
  {
    var tierN := |shape|;
    if !Samples(tierN, t, d) {
      return;
    }
    DrawnNodes(shape, nodeTier, t, v, d);
    var lo, hi := d.tierA, d.tierB;
    if hi < lo {
      lo, hi := hi, lo;
    }
    var x := nodeTier[lo][d.pickA];
    var y := nodeTier[hi][d.pickB];
    var e0, e1;
    match d.motif {
      case Chain =>
        if t == 0 {
          e0, e1 := (v, x), (x, y);
        } else if t == tierN - 1 {
          e0, e1 := (x, y), (y, v);
        } else {
          e0, e1 := (x, v), (v, y);
        }
      case Fork =>
        e0, e1 := (v, x), (v, y);
      case Collider =>
        e0, e1 := (x, v), (y, v);
    }
    assert [e0, e1] == VisitEdges(shape, t, v, d);
    SetTwo(matrix, e0, e1);
  }

  lemma VisitTierStep(m: Matrix, shape: seq<nat>, row: seq<Draw>, t: nat, j: nat)
    requires t < |shape| && j < shape[t] && |row| == NodeCount(shape)
    ensures Offset(shape, t) + j < |row|
    ensures VisitTier(m, shape, row, t, j + 1) ==
      Visit(VisitTier(m, shape, row, t, j), shape, t, Offset(shape, t) + j, row[Offset(shape, t) + j])
  {
    OffsetMono(shape, t + 1, |shape|);
  }

  /** The innermost loop: every node of tier t in ascending order. */
  method VisitTierNodes(matrix: array2<int>, shape: seq<nat>, nodeTier: seq<seq<nat>>, row: seq<Draw>, t: nat)
    requires SweepInputs(shape, nodeTier, row) && t < |shape|
    requires matrix.Length0 == NodeCount(shape) && matrix.Length1 == NodeCount(shape)
    modifies matrix
    ensures Snapshot(matrix) == VisitTier(old(Snapshot(matrix)), shape, row, t, shape[t])
  {
    ghost var start := Snapshot(matrix);
    var count := TierSize(shape, nodeTier, t);
    for j := 0 to count
      invariant Snapshot(matrix) == VisitTier(start, shape, row, t, j)
    {
      VisitTierNode(matrix, shape, nodeTier, row, t, j, start);
    }
  }

  /** len(node_tier[t]): the size of tier t. */
  function TierSize(shape: seq<nat>, nodeTier: seq<seq<nat>>, t: nat): (n: nat)
    requires TiersAre(shape, nodeTier) && t < |shape|
    ensures n == shape[t]
  {
    assert TierIs(shape, nodeTier, t);
    |nodeTier[t]|
  }

  /** One pass of the innermost loop: node j of tier t. */
  method VisitTierNode(matrix: array2<int>, shape: seq<nat>, nodeTier: seq<seq<nat>>, row: seq<Draw>, t: nat, j: nat,
                       ghost start: Matrix)
    requires SweepInputs(shape, nodeTier, row) && t < |shape| && j < shape[t]
    requires matrix.Length0 == NodeCount(shape) && matrix.Length1 == NodeCount(shape)
    requires Snapshot(matrix) == VisitTier(start, shape, row, t, j)
    modifies matrix
    ensures Snapshot(matrix) == VisitTier(start, shape, row, t, j + 1)
  {
    assert TierIs(shape, nodeTier, t);
    assert Offset(shape, t + 1) == Offset(shape, t) + shape[t];
    assert |nodeTier[t]| == shape[t];
    var v := nodeTier[t][j];
    assert v == Offset(shape, t) + j;
    RowDraw(shape, row, t, v);
    VisitTierStep(start, shape, row, t, j);
    ghost var next := Visit(Snapshot(matrix), shape, t, v, row[v]);
    assert next == VisitTier(start, shape, row, t, j + 1);
    VisitNode(matrix, shape, nodeTier, t, v, row[v]);
    assert Snapshot(matrix) == next;
  }

  /** One iteration of the outer loop: a sweep over all tiers. */
  method SweepNodes(matrix: array2<int>, shape: seq<nat>, nodeTier: seq<seq<nat>>, row: seq<Draw>)
    requires SweepInputs(shape, nodeTier, row)
    requires matrix.Length0 == NodeCount(shape) && matrix.Length1 == NodeCount(shape)
    modifies matrix
    ensures Snapshot(matrix) == SweepTiers(old(Snapshot(matrix)), shape, row, |shape|)
  {
    ghost var start := Snapshot(matrix);
    for t := 0 to |shape|
      invariant Snapshot(matrix) == SweepTiers(start, shape, row, t)
    {
      VisitTierNodes(matrix, shape, nodeTier, row, t);
    }
  }

  /** dag_gen: the tiers, the matrix after |draws| sweeps (one row of draws per sweep,
      one draw per node), and its complexity metrics. */
  method DagGen(shape: seq<nat>, draws: seq<seq<Draw>>)
    returns (nodeList: seq<nat>, nodeTier: seq<seq<nat>>, matrix: array2<int>, complexity: Complexity)
    requires WellShaped(shape) && ValidDraws(shape, draws)
    ensures nodeList == Range(0, NodeCount(shape))
    ensures |nodeTier| == |shape| && forall t :: 0 <= t < |shape| ==> nodeTier[t] == Range(Offset(shape, t), Offset(shape, t + 1))
    ensures fresh(matrix) && matrix.Length0 == NodeCount(shape) && matrix.Length1 == NodeCount(shape)
    ensures Snapshot(matrix) == DagMatrix(shape, draws)
    ensures TierForward(shape, Snapshot(matrix)) && StrictlyUpper(Snapshot(matrix)) && Acyclic(Snapshot(matrix))
    ensures complexity == ComplexityOf(Snapshot(matrix))
  {
    var n := NodeCount(shape);
    nodeList, nodeTier := BuildTiers(shape);
    matrix := new int[n, n]((i, j) => 0);
    assert Snapshot(matrix) == Zeros(n) by {
      forall i | 0 <= i < n ensures Snapshot(matrix)[i] == Zeros(n)[i] {
      }
    }
    assert TiersAre(shape, nodeTier);
    for i := 0 to |draws|
      invariant Snapshot(matrix) == Iterate(Zeros(n), shape, draws, i)
    {
      assert SweepInputs(shape, nodeTier, draws[i]);
      SweepNodes(matrix, shape, nodeTier, draws[i]);
    }
    DagMatrixForward(shape, draws);
    complexity := ComplexityCount(matrix);
  }

  // ---------------------------------------------------------------------------
  // graph_complexity_count
  // ---------------------------------------------------------------------------

  /** node_n, the in-degree total (indegree_avg is this divided by node_n), and the
      chain, fork and collider counts. */
  datatype Complexity = Complexity(nodeN: nat, indegreeSum: int, chainN: int, forkN: int, colliderN: int)

  /** Column j summed over the first k rows. */
  function ColumnSum(m: Matrix, j: nat, k: nat): (s: int)
    requires IsSquare(m) && j < |m| && k <= |m|
    ensures (forall i :: 0 <= i < k ==> m[i][j] >= 0) ==> s >= 0
    ensures (forall i :: 0 <= i < k ==> m[i][j] == 0) ==> s == 0
  {
    if k == 0 then 0 else ColumnSum(m, j, k - 1) + m[k - 1][j]
  }

  /** The first k entries of a row summed. */
  function RowSum(r: seq<int>, k: nat): (s: int)
    requires k <= |r|
    ensures (forall i :: 0 <= i < k ==> r[i] >= 0) ==> s >= 0
    ensures (forall i :: 0 <= i < k ==> r[i] == 0) ==> s == 0
  {
    if k == 0 then 0 else RowSum(r, k - 1) + r[k - 1]
  }

  function InDegree(m: Matrix, j: nat): int
    requires IsSquare(m) && j < |m|
  {
    ColumnSum(m, j, |m|)
  }

  function OutDegree(m: Matrix, i: nat): int
    requires IsSquare(m) && i < |m|
  {
    RowSum(m[i], |m|)
  }

  /** math.comb(x, 2) for x >= 0. */
  function Comb2(x: nat): nat {
    x * (x - 1) / 2
  }

  function InTotal(m: Matrix, k: nat): int
    requires IsSquare(m) && k <= |m|
  {
    if k == 0 then 0 else InTotal(m, k - 1) + InDegree(m, k - 1)
  }

  function OutTotal(m: Matrix, k: nat): int
    requires IsSquare(m) && k <= |m|
  {
    if k == 0 then 0 else OutTotal(m, k - 1) + OutDegree(m, k - 1)
  }

  function ChainTotal(m: Matrix, k: nat): int
    requires IsSquare(m) && k <= |m|
  {
    if k == 0 then 0 else ChainTotal(m, k - 1) + InDegree(m, k - 1) * OutDegree(m, k - 1)
  }

  function ForkTotal(m: Matrix, k: nat): int
    requires IsSquare(m) && NonNegative(m) && k <= |m|
  {
    if k == 0 then 0 else ForkTotal(m, k - 1) + Comb2(OutDegree(m, k - 1))
  }

  function ColliderTotal(m: Matrix, k: nat): int
    requires IsSquare(m) && NonNegative(m) && k <= |m|
  {
    if k == 0 then 0 else ColliderTotal(m, k - 1) + Comb2(InDegree(m, k - 1))
  }

  function ComplexityOf(m: Matrix): Complexity
    requires IsSquare(m) && NonNegative(m)
  {
    Complexity(|m|, InTotal(m, |m|), ChainTotal(m, |m|), ForkTotal(m, |m|), ColliderTotal(m, |m|))
  }

  /** np.sum(matrix, axis=0): the in-degree of every node. */
  method ColumnSums(matrix: array2<int>) returns (indeg: seq<int>)
    requires matrix.Length0 == matrix.Length1
    ensures IsSquare(Snapshot(matrix))
    ensures |indeg| == matrix.Length1 && forall k :: 0 <= k < |indeg| ==> indeg[k] == InDegree(Snapshot(matrix), k)
  {
    ghost var g := Snapshot(matrix);
    var n := matrix.Length0;
    indeg := [];
    for j := 0 to n
      invariant |indeg| == j && forall k :: 0 <= k < j ==> indeg[k] == InDegree(g, k)
    {
      var s := 0;
      for i := 0 to n
        invariant s == ColumnSum(g, j, i)
      {
        s := s + matrix[i, j];
      }
      indeg := indeg + [s];
    }
  }

  /** np.sum(matrix, axis=1): the out-degree of every node. */
  method RowSums(matrix: array2<int>) returns (outdeg: seq<int>)
    requires matrix.Length0 == matrix.Length1
    ensures IsSquare(Snapshot(matrix))
    ensures |outdeg| == matrix.Length0 && forall k :: 0 <= k < |outdeg| ==> outdeg[k] == OutDegree(Snapshot(matrix), k)
  {
    ghost var g := Snapshot(matrix);
    var n := matrix.Length0;
    outdeg := [];
    for i := 0 to n
      invariant |outdeg| == i && forall k :: 0 <= k < i ==> outdeg[k] == OutDegree(g, k)
    {
      var s := 0;
      for j := 0 to n
        invariant s == RowSum(g[i], j)
      {
        s := s + matrix[i, j];
      }
      outdeg := outdeg + [s];
    }
  }

  /** graph_complexity_count: column sums, row sums, then one accumulating loop. */
  method ComplexityCount(matrix: array2<int>) returns (c: Complexity)
    requires matrix.Length0 == matrix.Length1
    requires forall i, j :: 0 <= i < matrix.Length0 && 0 <= j < matrix.Length1 ==> matrix[i, j] >= 0
    ensures IsSquare(Snapshot(matrix)) && NonNegative(Snapshot(matrix))
    ensures c == ComplexityOf(Snapshot(matrix))
  {
    ghost var g := Snapshot(matrix);
    var n := matrix.Length0;
    var indeg := ColumnSums(matrix);
    var outdeg := RowSums(matrix);
    var inSum := 0;
    for i := 0 to n
      invariant inSum == InTotal(g, i)
    {
      inSum := inSum + indeg[i];
    }
    var chainN, forkN, colliderN := 0, 0, 0;
    for i := 0 to n
      invariant chainN == ChainTotal(g, i) && forkN == ForkTotal(g, i) && colliderN == ColliderTotal(g, i)
    {
      chainN := chainN + indeg[i] * outdeg[i];
      forkN := forkN + Comb2(outdeg[i]);
      colliderN := colliderN + Comb2(indeg[i]);
    }
    c := Complexity(n, inSum, chainN, forkN, colliderN);
  }

  /** With iter_n = 0 the matrix is all zeros and the complexity is [N, 0, 0, 0, 0]. */
  lemma NoIterations(shape: seq<nat>)
    ensures DagMatrix(shape, []) == Zeros(NodeCount(shape))
    ensures ComplexityOf(Zeros(NodeCount(shape))) == Complexity(NodeCount(shape), 0, 0, 0, 0)
  {
    var n := NodeCount(shape);
    ZeroTotals(Zeros(n), n);
  }

  lemma {:induction false} ZeroTotals(m: Matrix, k: nat)
    requires IsSquare(m) && k <= |m| && forall i, j :: 0 <= i < |m| && 0 <= j < |m| ==> m[i][j] == 0
    ensures NonNegative(m)
    ensures InTotal(m, k) == 0 && ChainTotal(m, k) == 0 && ForkTotal(m, k) == 0 && ColliderTotal(m, k) == 0
  {
    if k > 0 {
      ZeroTotals(m, k - 1);
      assert InDegree(m, k - 1) == 0 && OutDegree(m, k - 1) == 0;
    }
  }

  /** Column sums of the first r rows, over the first c columns. */
  function ColumnTotals(m: Matrix, r: nat, c: nat): int
    requires IsSquare(m) && r <= |m| && c <= |m|
  {
    if c == 0 then 0 else ColumnTotals(m, r, c - 1) + ColumnSum(m, c - 1, r)
  }

  /** Row sums of the first r rows, over the first c columns. */
  function RowTotals(m: Matrix, r: nat, c: nat): int
    requires IsSquare(m) && r <= |m| && c <= |m|
  {
    if r == 0 then 0 else RowTotals(m, r - 1, c) + RowSum(m[r - 1], c)
  }

  lemma {:induction false} ColumnTotalsLastRow(m: Matrix, r: nat, c: nat)
    requires IsSquare(m) && 0 < r <= |m| && c <= |m|
    ensures ColumnTotals(m, r, c) == ColumnTotals(m, r - 1, c) + RowSum(m[r - 1], c)
  {
    if c > 0 {
      ColumnTotalsLastRow(m, r, c - 1);
    }
  }

  lemma {:induction false} TotalsAgree(m: Matrix, r: nat, c: nat)
    requires IsSquare(m) && r <= |m| && c <= |m|
    ensures ColumnTotals(m, r, c) == RowTotals(m, r, c)
  {
    if r == 0 {
      ColumnTotalsEmpty(m, c);
    } else {
      ColumnTotalsLastRow(m, r, c);
      TotalsAgree(m, r - 1, c);
    }
  }

  lemma {:induction false} ColumnTotalsEmpty(m: Matrix, c: nat)
    requires IsSquare(m) && c <= |m|
    ensures ColumnTotals(m, 0, c) == 0
  {
    if c > 0 {
      ColumnTotalsEmpty(m, c - 1);
    }
  }

  lemma {:induction false} InTotalIsColumnTotals(m: Matrix, k: nat)
    requires IsSquare(m) && k <= |m|
    ensures InTotal(m, k) == ColumnTotals(m, |m|, k)
  {
    if k > 0 {
      InTotalIsColumnTotals(m, k - 1);
    }
  }

  lemma {:induction false} OutTotalIsRowTotals(m: Matrix, k: nat)
    requires IsSquare(m) && k <= |m|
    ensures OutTotal(m, k) == RowTotals(m, k, |m|)
  {
    if k > 0 {
      OutTotalIsRowTotals(m, k - 1);
    }
  }

  /** The in-degree total that indegree_avg divides by node_n is also the out-degree
      total: both count every edge once. */
  lemma DegreeTotalsAgree(m: Matrix)
    requires IsSquare(m)
    ensures InTotal(m, |m|) == OutTotal(m, |m|)
  {
    InTotalIsColumnTotals(m, |m|);
    OutTotalIsRowTotals(m, |m|);
    TotalsAgree(m, |m|, |m|);
  }
}
