/** Confounding queries: pick a cause tier and an effect tier by a relative distance,
    then split the undirected simple paths between each cause and each effect into
    the directed (causal) paths and the rest (backdoor paths). */
module ConfUtils {
  import opened Common
  import PublicUtils

  // ---------------------------------------------------------------------------
  // Tier selection
  // ---------------------------------------------------------------------------

  /** Python's round() on an exact rational: the nearest integer, a tie going to the even one. */
  function RoundHalfEven(x: real): (r: int)
    ensures x - 0.5 <= r as real <= x + 0.5
    ensures (r as real == x - 0.5 || r as real == x + 0.5) ==> r % 2 == 0
  {
    var f := x.Floor;
    var frac := x - f as real;
    if frac < 0.5 then f
    else if frac > 0.5 then f + 1
    else if f % 2 == 0 then f
    else f + 1
  }

  /** The two conditions above pin the rounded value down: there is only one such integer. */
  lemma RoundUnique(x: real, k: int)
    requires x - 0.5 <= k as real <= x + 0.5
    requires (k as real == x - 0.5 || k as real == x + 0.5) ==> k % 2 == 0
    ensures k == RoundHalfEven(x)
  {
  }

  /** seq[i] with Python's negative indices; None where Python raises IndexError. */
  function PyIndex<T>(s: seq<T>, i: int): (r: Option<T>)
    ensures r.Some? <==> -|s| <= i < |s|
  {
    if 0 <= i < |s| then Some(s[i]) else if -|s| <= i < 0 then Some(s[|s| + i]) else None
  }

  /** len(node_tier[1:-1]): the number of tiers strictly between the first and the last. */
  function MaxDistance<T>(tiers: seq<T>): nat {
    if |tiers| >= 2 then |tiers| - 2 else 0
  }

  /** round(max_d / 2 * (1 - ce_d)) */
  function TierOffset(maxD: nat, ceD: real): int {
    RoundHalfEven(maxD as real / 2.0 * (1.0 - ceD))
  }

  /** (c_list, e_list), or None where an index is out of range. */
  function SelectTiers(tiers: seq<seq<nat>>, ceD: real): Option<(seq<nat>, seq<nat>)> {
    var maxD := MaxDistance(tiers);
    var offset := TierOffset(maxD, ceD);
    var c := PyIndex(tiers, 1 + offset);
    var e := if offset as real > maxD as real / 2.0 then PyIndex(tiers, 1 + offset + 1) else PyIndex(tiers, -2 - offset);
    if c.Some? && e.Some? then Some((c.value, e.value)) else None
  }

  /** ce_d = 1 asks for the longest distance: the second tier causes, the last but one is the effect. */
  lemma SelectAtFullDistance(tiers: seq<seq<nat>>)
    requires |tiers| >= 3
    ensures SelectTiers(tiers, 1.0) == Some((tiers[1], tiers[|tiers| - 2]))
  {
    assert TierOffset(MaxDistance(tiers), 1.0) == 0 by {
      RoundUnique(MaxDistance(tiers) as real / 2.0 * (1.0 - 1.0), 0);
    }
  }

  lemma HalfProduct(maxD: nat, ceD: real)
    requires 0.0 < ceD <= 1.0
    ensures 0.0 <= maxD as real / 2.0 * (1.0 - ceD) <= maxD as real / 2.0
    ensures maxD > 0 ==> maxD as real / 2.0 * (1.0 - ceD) < maxD as real / 2.0
  {
    var h := maxD as real / 2.0;
    assert h * (1.0 - ceD) == h - h * ceD;
    if maxD > 0 {
      assert h * ceD > 0.0;
    }
  }

  /** For ce_d in (0, 1] the offset lies in [0, max_d / 2], so the branch that takes the tier after
      the cause tier is never taken: the cause is tier 1 + offset and the effect tier
      len - 2 - offset. The cause tier comes strictly before the effect tier exactly when
      2 * offset < max_d - 1; they coincide when 2 * offset == max_d - 1, and the cause tier
      comes after the effect tier when 2 * offset == max_d. */
  lemma SelectInUnitRange(tiers: seq<seq<nat>>, ceD: real)
    requires |tiers| >= 2 && 0.0 < ceD <= 1.0
    ensures var offset := TierOffset(MaxDistance(tiers), ceD);
      0 <= offset && 2 * offset <= MaxDistance(tiers) &&
      SelectTiers(tiers, ceD) == Some((tiers[1 + offset], tiers[|tiers| - 2 - offset])) &&
      (1 + offset < |tiers| - 2 - offset <==> 2 * offset + 1 < MaxDistance(tiers))
  {
    var maxD := MaxDistance(tiers);
    var x := maxD as real / 2.0 * (1.0 - ceD);
    HalfProduct(maxD, ceD);
    var offset := TierOffset(maxD, ceD);
    assert x - 0.5 <= offset as real <= x + 0.5;
    assert offset >= 0;
    if maxD > 0 {
      assert (2 * offset) as real < maxD as real + 1.0;
    }
    assert 2 * offset <= maxD;
    assert !(offset as real > maxD as real / 2.0);
    assert PyIndex(tiers, 1 + offset) == Some(tiers[1 + offset]);
    assert PyIndex(tiers, -2 - offset) == Some(tiers[|tiers| - 2 - offset]);
  }

  /** Four tiers and ce_d = 1/4: the offset is round(0.75) = 1, the cause is tier 2 and the
      effect tier 1, so no directed path can lead from a cause to an effect. */
  lemma SelectCrossesOver(t0: seq<nat>, t1: seq<nat>, t2: seq<nat>, t3: seq<nat>)
    ensures SelectTiers([t0, t1, t2, t3], 0.25) == Some((t2, t1))
  {
    RoundUnique(2.0 / 2.0 * (1.0 - 0.25), 1);
  }

  /** ce_d = 0 lies outside (0, 1]: with five tiers the offset is round(1.5) = 2 > 1.5, and the
      `offset > max_d / 2` branch takes the tier right after the cause tier. */
  lemma SelectAtZeroDistance(t0: seq<nat>, t1: seq<nat>, t2: seq<nat>, t3: seq<nat>, t4: seq<nat>)
    ensures SelectTiers([t0, t1, t2, t3, t4], 0.0) == Some((t3, t4))
  {
    RoundUnique(3.0 / 2.0 * (1.0 - 0.0), 2);
  }

  // ---------------------------------------------------------------------------
  // The undirected matrix and the path partition
  // ---------------------------------------------------------------------------

  /** adj_mat + adj_mat.T */
  function Symmetrize(adj: Matrix): (r: Matrix)
    requires IsSquare(adj)
    ensures |r| == |adj| && IsSquare(r)
  {
    seq(|adj|, i requires 0 <= i < |adj| => seq(|adj|, j requires 0 <= j < |adj| => adj[i][j] + adj[j][i]))
  }

  /** The undirected matrix is symmetric, and stays 0/1 when the input is a 0/1 upper-triangular DAG. */
  lemma SymmetrizeShape(adj: Matrix)
    requires IsSquare(adj)
    ensures forall i, j :: 0 <= i < |adj| && 0 <= j < |adj| ==> Symmetrize(adj)[i][j] == Symmetrize(adj)[j][i]
    ensures ZeroOne(adj) && StrictlyUpper(adj) ==> ZeroOne(Symmetrize(adj))
  {
    var r := Symmetrize(adj);
    if ZeroOne(adj) && StrictlyUpper(adj) {
      forall i, j | 0 <= i < |r| && 0 <= j < |r[i]| ensures r[i][j] == 0 || r[i][j] == 1 {
        if adj[i][j] != 0 {
          assert i < j;
          assert adj[j][i] == 0;
        }
      }
    }
  }

  /** Every directed edge is an undirected edge when entries are non-negative. */
  lemma DirectedIsUndirected(adj: Matrix, q: seq<nat>, s: nat, e: nat)
    requires IsSquare(adj) && NonNegative(adj)
    requires PublicUtils.IsSimplePath(adj, q, s, e)
    ensures PublicUtils.IsSimplePath(Symmetrize(adj), q, s, e)
  {
    var u := Symmetrize(adj);
    forall i | 0 <= i < |q| - 1 ensures q[i] < |u| && q[i + 1] < |u[q[i]]| && u[q[i]][q[i + 1]] != 0 {
      assert adj[q[i + 1]][q[i]] >= 0;
    }
  }

  /** The elements of u that are not in p, in u's order (the inner filtering loop). */
  function Without(u: seq<seq<nat>>, p: seq<seq<nat>>): (r: seq<seq<nat>>)
    ensures forall x :: multiset(r)[x] == if x in p then 0 else multiset(u)[x]
  {
    if |u| == 0 then []
    else
      var rest := Without(u[..|u| - 1], p);
      var last := u[|u| - 1];
      assert u == u[..|u| - 1] + [last];
      if last in p then rest else rest + [last]
  }

  /** For one cause and one effect: every undirected simple path is either causal or
      noncausal, never both, and each appears once overall. */
  lemma PairPartition(adj: Matrix, c: nat, e: nat)
    requires IsSquare(adj) && NonNegative(adj) && c < |adj| && e < |adj|
    ensures var causal := PublicUtils.Paths(adj, [], c, e);
      var undirected := PublicUtils.Paths(Symmetrize(adj), [], c, e);
      var noncausal := Without(undirected, causal);
      multiset(causal) + multiset(noncausal) == multiset(undirected) &&
      forall q :: !(q in causal && q in noncausal)
  {
    var u := Symmetrize(adj);
    var causal := PublicUtils.Paths(adj, [], c, e);
    var undirected := PublicUtils.Paths(u, [], c, e);
    var noncausal := Without(undirected, causal);
    forall q ensures multiset(causal)[q] + multiset(noncausal)[q] == multiset(undirected)[q] {
      PublicUtils.FindAllPathsExact(adj, c, e, q);
      PublicUtils.FindAllPathsExact(u, c, e, q);
      if PublicUtils.IsSimplePath(adj, q, c, e) {
        DirectedIsUndirected(adj, q, c, e);
      }
    }
    assert multiset(causal) + multiset(noncausal) == multiset(undirected);
  }

  // ---------------------------------------------------------------------------
  // conf_qa_gen
  // ---------------------------------------------------------------------------

  /** The dictionary conf_qa_gen returns. Entry a * |e_list| + b of the two path lists
      belongs to cause c_list[a] and effect e_list[b]. */
  datatype ConfQa = ConfQa(
    ceD: real, cList: seq<nat>, eList: seq<nat>,
    c2ePath: seq<seq<seq<nat>>>, c2eNoncausalPath: seq<seq<seq<nat>>>)

  function PairIndex(a: nat, b: nat, width: nat): nat {
    a * width + b
  }

  lemma {:induction false} MulMono(x: nat, y: nat, w: nat)
    requires x <= y
    ensures x * w <= y * w
    decreases y - x
  {
    if x < y {
      MulMono(x, y - 1, w);
      assert (y - 1) * w + w == y * w;
    }
  }

  lemma PairIndexBelow(a: nat, b: nat, width: nat, a': nat)
    requires b < width && a < a'
    ensures PairIndex(a, b, width) < a' * width
  {
    MulMono(a + 1, a', width);
    assert (a + 1) * width == a * width + width;
  }

  /** The entries for cause a and effect b are the directed paths from c_list[a] to e_list[b]
      and the undirected ones not among them. */
  ghost predicate EntryFor(adj: Matrix, cList: seq<nat>, eList: seq<nat>,
                           cp: seq<seq<seq<nat>>>, np: seq<seq<seq<nat>>>, a: nat, b: nat)
    requires IsSquare(adj) && a < |cList| && b < |eList|
    requires cList[a] < |adj| && eList[b] < |adj|
  {
    var k := PairIndex(a, b, |eList|);
    k < |cp| && k < |np| &&
    cp[k] == PublicUtils.Paths(adj, [], cList[a], eList[b]) &&
    np[k] == Without(PublicUtils.Paths(Symmetrize(adj), [], cList[a], eList[b]), cp[k])
  }

  ghost predicate PairLists(adj: Matrix, qa: ConfQa)
    requires IsSquare(adj) && AllBelow(qa.cList, |adj|) && AllBelow(qa.eList, |adj|)
  {
    |qa.c2ePath| == |qa.cList| * |qa.eList| && |qa.c2eNoncausalPath| == |qa.cList| * |qa.eList| &&
    forall a, b :: 0 <= a < |qa.cList| && 0 <= b < |qa.eList| ==>
      EntryFor(adj, qa.cList, qa.eList, qa.c2ePath, qa.c2eNoncausalPath, a, b)
  }

  ghost predicate NodesBelow(tiers: seq<seq<nat>>, n: nat) {
    forall t :: 0 <= t < |tiers| ==> AllBelow(tiers[t], n)
  }

  lemma SelectedBelow(tiers: seq<seq<nat>>, ceD: real, n: nat)
    requires NodesBelow(tiers, n) && SelectTiers(tiers, ceD).Some?
    ensures AllBelow(SelectTiers(tiers, ceD).value.0, n) && AllBelow(SelectTiers(tiers, ceD).value.1, n)
  {
  }

  /** conf_qa_gen: None where a tier index is out of range (IndexError); otherwise the
      inputs echoed back with one causal and one noncausal list per cause x effect pair,
      cause-major. */
  method ConfQaGen(tiers: seq<seq<nat>>, adj: Matrix, ceD: real) returns (r: Option<ConfQa>)
    requires IsSquare(adj) && NodesBelow(tiers, |adj|)
    ensures r.None? <==> SelectTiers(tiers, ceD).None?
    ensures r.Some? ==>
      r.value.ceD == ceD && (r.value.cList, r.value.eList) == SelectTiers(tiers, ceD).value &&
      AllBelow(r.value.cList, |adj|) && AllBelow(r.value.eList, |adj|) && PairLists(adj, r.value)
  {
    var sel := SelectTiers(tiers, ceD);
    if sel.None? {
      return None;
    }
    SelectedBelow(tiers, ceD, |adj|);
    var cList, eList := sel.value.0, sel.value.1;
    var width := |eList|;
    var c2ePath: seq<seq<seq<nat>>> := [];
    var c2eNoncausalPath: seq<seq<seq<nat>>> := [];
    var undirAdj := Symmetrize(adj);
    for a := 0 to |cList|
      invariant |c2ePath| == a * width && |c2eNoncausalPath| == a * width
      invariant forall a', b' :: 0 <= a' < a && 0 <= b' < width ==>
        EntryFor(adj, cList, eList, c2ePath, c2eNoncausalPath, a', b')
    {
      for b := 0 to width
        invariant |c2ePath| == a * width + b && |c2eNoncausalPath| == a * width + b
        invariant forall a', b' :: (0 <= a' < a && 0 <= b' < width) || (a' == a && 0 <= b' < b) ==>
          EntryFor(adj, cList, eList, c2ePath, c2eNoncausalPath, a', b')
      {
        c2ePath, c2eNoncausalPath := AddPair(adj, undirAdj, cList, eList, a, b, c2ePath, c2eNoncausalPath);
      }
      assert (a + 1) * width == a * width + width;
    }
    r := Some(ConfQa(ceD, cList, eList, c2ePath, c2eNoncausalPath));
  }

  /** The entries of one cause x effect pair appended after those of the earlier pairs. */
  method AddPair(adj: Matrix, undirAdj: Matrix, cList: seq<nat>, eList: seq<nat>, a: nat, b: nat,
                 cp: seq<seq<seq<nat>>>, np: seq<seq<seq<nat>>>)
    returns (cp': seq<seq<seq<nat>>>, np': seq<seq<seq<nat>>>)
    requires IsSquare(adj) && undirAdj == Symmetrize(adj)
    requires AllBelow(cList, |adj|) && AllBelow(eList, |adj|) && a < |cList| && b < |eList|
    requires |cp| == a * |eList| + b && |np| == a * |eList| + b
    requires forall a', b' :: (0 <= a' < a && 0 <= b' < |eList|) || (a' == a && 0 <= b' < b) ==>
      EntryFor(adj, cList, eList, cp, np, a', b')
    ensures |cp'| == a * |eList| + b + 1 && |np'| == a * |eList| + b + 1
    ensures forall a', b' :: (0 <= a' < a && 0 <= b' < |eList|) || (a' == a && 0 <= b' <= b) ==>
      EntryFor(adj, cList, eList, cp', np', a', b')
  {
    var width := |eList|;
    var pathsT := PublicUtils.FindAllPaths(adj, cList[a], eList[b]);
    var undirT := PublicUtils.FindAllPaths(undirAdj, cList[a], eList[b]);
    var kept := Noncausal(undirT, pathsT);
    cp' := cp + [pathsT];
    np' := np + [kept];
    EntriesExtended(adj, cList, eList, cp, np, pathsT, kept, a, b);
  }

  lemma EntriesExtended(adj: Matrix, cList: seq<nat>, eList: seq<nat>, cp: seq<seq<seq<nat>>>, np: seq<seq<seq<nat>>>,
                        pathsT: seq<seq<nat>>, kept: seq<seq<nat>>, a: nat, b: nat)
    requires IsSquare(adj)
    requires AllBelow(cList, |adj|) && AllBelow(eList, |adj|) && a < |cList| && b < |eList|
    requires |cp| == a * |eList| + b && |np| == a * |eList| + b
    requires forall a', b' :: (0 <= a' < a && 0 <= b' < |eList|) || (a' == a && 0 <= b' < b) ==>
      EntryFor(adj, cList, eList, cp, np, a', b')
    requires pathsT == PublicUtils.Paths(adj, [], cList[a], eList[b])
    requires kept == Without(PublicUtils.Paths(Symmetrize(adj), [], cList[a], eList[b]), pathsT)
    ensures forall a', b' :: (0 <= a' < a && 0 <= b' < |eList|) || (a' == a && 0 <= b' <= b) ==>
      EntryFor(adj, cList, eList, cp + [pathsT], np + [kept], a', b')
  {
    var width := |eList|;
    forall a', b' | (0 <= a' < a && 0 <= b' < width) || (a' == a && 0 <= b' <= b)
      ensures EntryFor(adj, cList, eList, cp + [pathsT], np + [kept], a', b')
    {
      if a' < a {
        PairIndexBelow(a', b', width, a);
        EntryKept(adj, cList, eList, cp, np, pathsT, kept, a', b');
      } else if b' < b {
        EntryKept(adj, cList, eList, cp, np, pathsT, kept, a', b');
      } else {
        assert PairIndex(a', b', width) == |cp|;
      }
    }
  }

  /** Appending the next pair's entries leaves an earlier pair's entries in place. */
  lemma EntryKept(adj: Matrix, cList: seq<nat>, eList: seq<nat>, cp: seq<seq<seq<nat>>>, np: seq<seq<seq<nat>>>,
                  x: seq<seq<nat>>, y: seq<seq<nat>>, a: nat, b: nat)
    requires IsSquare(adj) && a < |cList| && b < |eList| && cList[a] < |adj| && eList[b] < |adj|
    requires |cp| == |np| && PairIndex(a, b, |eList|) < |cp|
    requires EntryFor(adj, cList, eList, cp, np, a, b)
    ensures EntryFor(adj, cList, eList, cp + [x], np + [y], a, b)
  {
    var k := PairIndex(a, b, |eList|);
    assert (cp + [x])[k] == cp[k];
    assert (np + [y])[k] == np[k];
  }

  /** The filter loop: the undirected paths not among the directed ones, in order. */
  method Noncausal(undirT: seq<seq<nat>>, pathsT: seq<seq<nat>>) returns (kept: seq<seq<nat>>)
    ensures kept == Without(undirT, pathsT)
  {
    kept := [];
    for i := 0 to |undirT|
      invariant kept == Without(undirT[..i], pathsT)
    {
      assert undirT[..i + 1][..i] == undirT[..i];
      if undirT[i] !in pathsT {
        kept := kept + [undirT[i]];
      }
    }
    assert undirT[..|undirT|] == undirT;
  }

  /** Every entry of a generated query splits the undirected simple paths between its cause
      and effect into the causal and the noncausal list, disjointly and without loss. */
  lemma ConfQaPartition(adj: Matrix, qa: ConfQa, a: nat, b: nat)
    requires IsSquare(adj) && NonNegative(adj) && AllBelow(qa.cList, |adj|) && AllBelow(qa.eList, |adj|)
    requires PairLists(adj, qa) && a < |qa.cList| && b < |qa.eList|
    ensures var k := PairIndex(a, b, |qa.eList|);
      k < |qa.c2ePath| && k < |qa.c2eNoncausalPath| &&
      multiset(qa.c2ePath[k]) + multiset(qa.c2eNoncausalPath[k]) ==
        multiset(PublicUtils.Paths(Symmetrize(adj), [], qa.cList[a], qa.eList[b])) &&
      forall q :: !(q in qa.c2ePath[k] && q in qa.c2eNoncausalPath[k])
  {
    assert EntryFor(adj, qa.cList, qa.eList, qa.c2ePath, qa.c2eNoncausalPath, a, b);
    PairPartition(adj, qa.cList[a], qa.eList[b]);
  }
}
