/** Counterfactual queries: every node is a boolean equation over its parents; an
    intervention cuts the incoming edges of some nodes and flips their factual value. */
module CfUtils {
  import opened Common
  import GraphUtils

  // ---------------------------------------------------------------------------
  // Parents and operator lists
  // ---------------------------------------------------------------------------

  /** The parents k < bound of node i (adj[k][i] == 1), in ascending order. */
  function Parents(adj: Matrix, i: nat, bound: nat): (ps: seq<nat>)
    requires IsSquare(adj) && i < |adj| && bound <= |adj|
    ensures forall j :: 0 <= j < |ps| ==> ps[j] < bound && adj[ps[j]][i] == 1
    ensures forall a, b :: 0 <= a < b < |ps| ==> ps[a] < ps[b]
  {
    if bound == 0 then []
    else Parents(adj, i, bound - 1) + (if adj[bound - 1][i] == 1 then [bound - 1] else [])
  }

  /** Every parent below `bound` is listed. */
  lemma {:induction false} ParentsComplete(adj: Matrix, i: nat, bound: nat, k: nat)
    requires IsSquare(adj) && i < |adj| && k < bound <= |adj| && adj[k][i] == 1
    ensures k in Parents(adj, i, bound)
  {
    if k < bound - 1 {
      ParentsComplete(adj, i, bound - 1, k);
    }
  }

  lemma {:induction false} ParentsPrefix(adj: Matrix, i: nat, k: nat, bound: nat)
    requires IsSquare(adj) && i < |adj| && k <= bound <= |adj|
    ensures |Parents(adj, i, k)| <= |Parents(adj, i, bound)|
    ensures Parents(adj, i, bound)[..|Parents(adj, i, k)|] == Parents(adj, i, k)
    decreases bound - k
  {
    if k < bound {
      ParentsPrefix(adj, i, k, bound - 1);
    }
  }

  /** Scanning candidate k: a parent is the next entry of the full parent list. */
  lemma ParentsNext(adj: Matrix, i: nat, k: nat)
    requires IsSquare(adj) && i < |adj| && k < |adj|
    ensures adj[k][i] == 1 ==>
      |Parents(adj, i, k)| < |Parents(adj, i, |adj|)| &&
      Parents(adj, i, |adj|)[|Parents(adj, i, k)|] == k &&
      |Parents(adj, i, k + 1)| == |Parents(adj, i, k)| + 1
    ensures adj[k][i] != 1 ==> |Parents(adj, i, k + 1)| == |Parents(adj, i, k)|
  {
    ParentsPrefix(adj, i, k + 1, |adj|);
  }

  /** On a 0/1 matrix the in-degree is the number of parents. */
  lemma {:induction false} InDegreeCountsParents(adj: Matrix, i: nat, k: nat)
    requires IsSquare(adj) && ZeroOne(adj) && i < |adj| && k <= |adj|
    ensures GraphUtils.ColumnSum(adj, i, k) == |Parents(adj, i, k)|
  {
    if k > 0 {
      InDegreeCountsParents(adj, i, k - 1);
    }
  }

  /** An operator list for d parents: d literal operators (0 = not, 1 = identity) at even
      positions, d - 1 connectives (2 = and, 3 = or) at odd positions. */
  ghost predicate WellFormedOpts(opts: seq<int>, d: nat) {
    d >= 1 && |opts| == 2 * d - 1 &&
    (forall j :: 0 <= j < d ==> opts[2 * j] == 0 || opts[2 * j] == 1) &&
    (forall j :: 0 <= j < d - 1 ==> opts[2 * j + 1] == 2 || opts[2 * j + 1] == 3)
  }

  /** The operator lists of every node of a 0/1 matrix: [-1] for a root, otherwise well formed. */
  ghost predicate OptsFor(adj: Matrix, opts: seq<seq<int>>)
    requires IsSquare(adj)
  {
    |opts| == |adj| &&
    forall i :: 0 <= i < |adj| ==>
      (GraphUtils.InDegree(adj, i) == 0 ==> opts[i] == [-1]) &&
      (GraphUtils.InDegree(adj, i) != 0 ==> WellFormedOpts(opts[i], |Parents(adj, i, |adj|)|))
  }

  /** r holds edge at its even positions and comb at its odd positions. */
  ghost predicate Interleaves(r: seq<int>, edge: seq<int>, comb: seq<int>) {
    |r| == |edge| + |comb| &&
    (forall j :: 0 <= j < |edge| ==> 2 * j < |r| && r[2 * j] == edge[j]) &&
    (forall j :: 0 <= j < |comb| ==> 2 * j + 1 < |r| && r[2 * j + 1] == comb[j])
  }

  /** opt_per_n[::2] = edge_opt; opt_per_n[1::2] = comb_opt, on a list of len(edge) + len(comb) slots. */
  method Interleave(edge: seq<int>, comb: seq<int>) returns (r: seq<int>)
    requires |comb| + 1 == |edge|
    ensures Interleaves(r, edge, comb)
  {
    var slots := new int[|edge| + |comb|];
    for j := 0 to |edge|
      invariant forall j' :: 0 <= j' < j ==> slots[2 * j'] == edge[j']
    {
      slots[2 * j] := edge[j];
    }
    for j := 0 to |comb|
      invariant forall j' :: 0 <= j' < |edge| ==> slots[2 * j'] == edge[j']
      invariant forall j' :: 0 <= j' < j ==> slots[2 * j' + 1] == comb[j']
    {
      slots[2 * j + 1] := comb[j];
    }
    r := slots[..];
  }

  /** The random draws for one node are in the ranges np.random.randint produces. */
  ghost predicate DrawsFit(edge: seq<int>, comb: seq<int>, d: int) {
    |edge| == d && |comb| == d - 1 &&
    (forall j :: 0 <= j < |edge| ==> 0 <= edge[j] < 2) &&
    (forall j :: 0 <= j < |comb| ==> 2 <= comb[j] < 4)
  }

  lemma InterleavedWellFormed(r: seq<int>, edge: seq<int>, comb: seq<int>, d: nat)
    requires d >= 1 && DrawsFit(edge, comb, d) && Interleaves(r, edge, comb)
    ensures WellFormedOpts(r, d)
  {
    forall j | 0 <= j < d ensures r[2 * j] == 0 || r[2 * j] == 1 {
      assert r[2 * j] == edge[j];
    }
    forall j | 0 <= j < d - 1 ensures r[2 * j + 1] == 2 || r[2 * j + 1] == 3 {
      assert r[2 * j + 1] == comb[j];
    }
  }

  /** Node i's operator list: [-1] for a root, otherwise the interleaved draws. */
  ghost predicate NodeOptsFrom(adj: Matrix, edgeDraws: seq<seq<int>>, combDraws: seq<seq<int>>, o: seq<int>, i: nat)
    requires IsSquare(adj) && i < |adj| && i < |edgeDraws| && i < |combDraws|
  {
    if GraphUtils.InDegree(adj, i) == 0 then o == [-1]
    else WellFormedOpts(o, |Parents(adj, i, |adj|)|) && Interleaves(o, edgeDraws[i], combDraws[i])
  }

  /** get_node_opts, with the draws of np.random.randint supplied by the caller. */
  method GetNodeOpts(adj: Matrix, edgeDraws: seq<seq<int>>, combDraws: seq<seq<int>>) returns (opts: seq<seq<int>>)
    requires IsSquare(adj) && ZeroOne(adj) && |edgeDraws| == |adj| && |combDraws| == |adj|
    requires forall i :: 0 <= i < |adj| && GraphUtils.InDegree(adj, i) != 0 ==>
      DrawsFit(edgeDraws[i], combDraws[i], GraphUtils.InDegree(adj, i))
    ensures OptsFor(adj, opts)
    ensures |opts| == |adj| && forall i :: 0 <= i < |adj| ==> NodeOptsFrom(adj, edgeDraws, combDraws, opts[i], i)
  {
    opts := [];
    for i := 0 to |adj|
      invariant |opts| == i
      invariant forall i' :: 0 <= i' < i ==> NodeOptsFrom(adj, edgeDraws, combDraws, opts[i'], i')
    {
      var optPerN: seq<int>;
      if GraphUtils.InDegree(adj, i) == 0 {
        optPerN := [-1];
      } else {
        InDegreeCountsParents(adj, i, |adj|);
        optPerN := Interleave(edgeDraws[i], combDraws[i]);
        InterleavedWellFormed(optPerN, edgeDraws[i], combDraws[i], |Parents(adj, i, |adj|)|);
      }
      opts := opts + [optPerN];
    }
  }

  // ---------------------------------------------------------------------------
  // One structural equation, read with Python's precedence
  // ---------------------------------------------------------------------------

  /** A literal: "not x" for operator 0, "x" for operator 1. */
  function Lit(op: int, b: bool): bool {
    if op == 0 then !b else b
  }

  /** Literal j of the equation: operator opts[2j] applied to the value of parent j. */
  function LitAt(world: seq<bool>, ps: seq<nat>, opts: seq<int>, j: nat): bool
    requires j < |ps| && 2 * j < |opts| && ps[j] < |world|
  {
    Lit(opts[2 * j], world[ps[j]])
  }

  /** The last "or" among the first d - 1 connectives, if any. */
  function LastOr(opts: seq<int>, d: nat): (r: Option<nat>)
    requires d == 0 || 2 * d - 2 <= |opts|
    ensures r.Some? ==> r.value + 1 < d && opts[2 * r.value + 1] == 3
    ensures forall j :: (if r.Some? then r.value + 1 else 0) <= j < d - 1 ==> opts[2 * j + 1] != 3
  {
    if d <= 1 then None
    else if opts[2 * (d - 2) + 1] == 3 then Some(d - 2)
    else LastOr(opts, d - 1)
  }

  /** Literals s .. d-1 are all true. */
  function RunAnd(world: seq<bool>, ps: seq<nat>, opts: seq<int>, s: nat, d: nat): bool
    requires d <= |ps| && 2 * d <= |opts| + 1 && AllBelow(ps, |world|)
    decreases d
  {
    if d <= s then true else RunAnd(world, ps, opts, s, d - 1) && LitAt(world, ps, opts, d - 1)
  }

  /** The value of "l0 c0 l1 c1 ... l(d-1)" as Python parses it: "or" is the loosest,
      left-associative operator, so the expression is the part before the last "or",
      or-ed with the and-run after it. */
  function PyValue(world: seq<bool>, ps: seq<nat>, opts: seq<int>, d: nat): bool
    requires 1 <= d <= |ps| && 2 * d <= |opts| + 1 && AllBelow(ps, |world|)
  {
    match LastOr(opts, d)
    case None => RunAnd(world, ps, opts, 0, d)
    case Some(m) => PyValue(world, ps, opts, m + 1) || RunAnd(world, ps, opts, m + 1, d)
  }

  /** The same expression read strictly from left to right, for comparison. */
  function LeftToRight(world: seq<bool>, ps: seq<nat>, opts: seq<int>, d: nat): bool
    requires 1 <= d <= |ps| && 2 * d <= |opts| + 1 && AllBelow(ps, |world|)
  {
    if d == 1 then LitAt(world, ps, opts, 0)
    else if opts[2 * (d - 2) + 1] == 2 then LeftToRight(world, ps, opts, d - 1) && LitAt(world, ps, opts, d - 1)
    else LeftToRight(world, ps, opts, d - 1) || LitAt(world, ps, opts, d - 1)
  }

  /** "x or y and z" with x, y true and z false: Python's reading is True, a strict
      left-to-right reading is False. */
  lemma PrecedenceMatters()
    ensures PyValue([true, true, false], [0, 1, 2], [1, 3, 1, 2, 1], 3) == true
    ensures LeftToRight([true, true, false], [0, 1, 2], [1, 3, 1, 2, 1], 3) == false
  {
    assert LastOr([1, 3, 1, 2, 1], 3) == Some(0);
  }

  /** The and-run that is still open after d literals starts right after the last "or". */
  function RunStart(opts: seq<int>, d: nat): nat
    requires d == 0 || 2 * d - 2 <= |opts|
  {
    match LastOr(opts, d)
    case None => 0
    case Some(m) => m + 1
  }

  /** The state of the evaluation after d literals: the or of the closed runs and the open run. */
  ghost predicate FoldState(world: seq<bool>, ps: seq<nat>, opts: seq<int>, d: nat, acc: bool, run: bool)
    requires d <= |ps| && 2 * d <= |opts| + 1 && AllBelow(ps, |world|)
  {
    run == RunAnd(world, ps, opts, RunStart(opts, d), d) &&
    acc == (match LastOr(opts, d) case None => false case Some(m) => PyValue(world, ps, opts, m + 1))
  }

  lemma FoldFirst(world: seq<bool>, ps: seq<nat>, opts: seq<int>)
    requires 1 <= |ps| && 2 <= |opts| + 1 && AllBelow(ps, |world|)
    ensures FoldState(world, ps, opts, 0, false, true)
    ensures FoldState(world, ps, opts, 1, false, true && LitAt(world, ps, opts, 0))
  {
  }

  lemma FoldStateValue(world: seq<bool>, ps: seq<nat>, opts: seq<int>, d: nat, acc: bool, run: bool)
    requires 1 <= d <= |ps| && 2 * d <= |opts| + 1 && AllBelow(ps, |world|)
    requires FoldState(world, ps, opts, d, acc, run)
    ensures (acc || run) == PyValue(world, ps, opts, d)
  {
  }

  /** Reading one more literal: after an "and" it joins the open run, after an "or" the open
      run is closed and the literal starts a new one. */
  lemma FoldStep(world: seq<bool>, ps: seq<nat>, opts: seq<int>, d: nat, acc: bool, run: bool)
    requires 1 <= d && d + 1 <= |ps| && 2 * d + 2 <= |opts| + 1 && AllBelow(ps, |world|)
    requires FoldState(world, ps, opts, d, acc, run)
    ensures opts[2 * d - 1] == 3 ==>
      FoldState(world, ps, opts, d + 1, acc || run, LitAt(world, ps, opts, d))
    ensures opts[2 * d - 1] != 3 ==>
      FoldState(world, ps, opts, d + 1, acc, run && LitAt(world, ps, opts, d))
  {
    FoldStateValue(world, ps, opts, d, acc, run);
    assert 2 * (d + 1 - 2) + 1 == 2 * d - 1;
  }

  /** Reading literal j with the connective before it (an "and" before the first). */
  lemma FoldAdvance(world: seq<bool>, ps: seq<nat>, opts: seq<int>, j: nat, acc: bool, run: bool,
                    prevComb: int, lit: bool)
    requires j + 1 <= |ps| && 2 * j + 2 <= |opts| + 1 && AllBelow(ps, |world|)
    requires FoldState(world, ps, opts, j, acc, run)
    requires j == 0 ==> prevComb == 2
    requires 1 <= j ==> prevComb == opts[2 * j - 1]
    requires lit == LitAt(world, ps, opts, j)
    ensures FoldState(world, ps, opts, j + 1,
                      if prevComb == 3 then acc || run else acc,
                      if prevComb == 3 then lit else run && lit)
  {
    if j == 0 {
      FoldFirst(world, ps, opts);
    } else {
      FoldStep(world, ps, opts, j, acc, run);
    }
  }

  /** Where the generated code stands after emitting j of d literals: the index of the next
      literal's option and the connective that precedes it (2, "and", before the first). */
  ghost predicate Cursor(opts: seq<int>, d: nat, j: nat, optIdx: int, prevComb: int)
    requires WellFormedOpts(opts, d)
  {
    j <= d &&
    optIdx == (if j < d then 2 * j else 2 * (d - 1)) &&
    (if j == 0 then prevComb == 2 else j < d ==> prevComb == opts[2 * j - 1])
  }

  /** One literal emitted: the cursor moves past it and its connective, except after the
      last literal, where the source's guard keeps it in place. */
  lemma CursorStep(opts: seq<int>, d: nat, j: nat, optIdx: int, prevComb: int)
    requires WellFormedOpts(opts, d) && j < d && Cursor(opts, d, j, optIdx, prevComb)
    ensures 0 <= optIdx < |opts| && optIdx == 2 * j
    ensures optIdx < |opts| - 1 <==> j + 1 < d
    ensures optIdx < |opts| - 1 ==> Cursor(opts, d, j + 1, optIdx + 2, opts[optIdx + 1])
    ensures optIdx >= |opts| - 1 ==> Cursor(opts, d, j + 1, optIdx, prevComb)
    ensures 1 <= j ==> prevComb == opts[2 * j - 1]
  {
  }

  /** Parent k, the j-th, enters the expression: its literal is read, joined with the
      connective before it, and the cursor advances. */
  method ReadLiteral(world: seq<bool>, ghost ps: seq<nat>, opts: seq<int>, ghost j: nat, k: nat,
                     acc: bool, run: bool, optIdx: int, prevComb: int)
    returns (acc': bool, run': bool, optIdx': int, prevComb': int)
    requires WellFormedOpts(opts, |ps|) && AllBelow(ps, |world|) && j < |ps| && ps[j] == k
    requires Cursor(opts, |ps|, j, optIdx, prevComb) && FoldState(world, ps, opts, j, acc, run)
    ensures Cursor(opts, |ps|, j + 1, optIdx', prevComb') && FoldState(world, ps, opts, j + 1, acc', run')
  {
    CursorStep(opts, |ps|, j, optIdx, prevComb);
    var lit := Lit(opts[optIdx], world[k]);
    FoldAdvance(world, ps, opts, j, acc, run, prevComb, lit);
    if prevComb == 3 {
      acc', run' := acc || run, lit;
    } else {
      acc', run' := acc, run && lit;
    }
    optIdx', prevComb' := optIdx, prevComb;
    if optIdx < |opts| - 1 {
      prevComb' := opts[optIdx + 1];
      optIdx' := optIdx + 2;
    }
  }

  /** The value of non-root node i in `world`: its equation over its parents. */
  method NodeValue(adj: Matrix, opts: seq<int>, world: seq<bool>, i: nat) returns (v: bool)
    requires IsSquare(adj) && i < |adj|
    requires WellFormedOpts(opts, |Parents(adj, i, |adj|)|)
    requires AllBelow(Parents(adj, i, |adj|), |world|)
    ensures v == PyValue(world, Parents(adj, i, |adj|), opts, |Parents(adj, i, |adj|)|)
  {
    ghost var ps := Parents(adj, i, |adj|);
    ghost var d := |ps|;
    var optIdx := 0;
    var acc, run := false, true;
    var prevComb := 2;
    ghost var j := 0;
    for k := 0 to |adj|
      invariant j == |Parents(adj, i, k)| && j <= d
      invariant Cursor(opts, d, j, optIdx, prevComb)
      invariant FoldState(world, ps, opts, j, acc, run)
    {
      ParentsNext(adj, i, k);
      if adj[k][i] == 1 {
        acc, run, optIdx, prevComb := ReadLiteral(world, ps, opts, j, k, acc, run, optIdx, prevComb);
        j := j + 1;
      }
    }
    FoldStateValue(world, ps, opts, d, acc, run);
    v := acc || run;
  }

  // ---------------------------------------------------------------------------
  // The assignment of every node, in index order
  // ---------------------------------------------------------------------------

  /** What cf_bool_assign needs of its inputs: a 0/1 matrix whose edges go from smaller to
      larger indices (so every variable the generated code reads is already assigned), a
      well-formed operator list for every non-root, and a factual value for every
      intervened node. */
  ghost predicate AssignInputs(adj: Matrix, opts: seq<seq<int>>, whatif: Option<seq<nat>>, fact: seq<bool>) {
    IsSquare(adj) && ZeroOne(adj) && StrictlyUpper(adj) && |opts| == |adj| &&
    (forall i :: 0 <= i < |adj| ==> OptsFit(adj, opts, i)) &&
    (whatif.Some? ==> forall w :: w in whatif.value && w < |adj| ==> w < |fact|)
  }

  /** Node i, if it is not a root, has a well-formed operator list. */
  ghost predicate OptsFit(adj: Matrix, opts: seq<seq<int>>, i: nat)
    requires IsSquare(adj) && i < |adj|
  {
    i < |opts| && (GraphUtils.InDegree(adj, i) != 0 ==> WellFormedOpts(opts[i], |Parents(adj, i, |adj|)|))
  }

  lemma ParentsBelowSelf(adj: Matrix, i: nat)
    requires IsSquare(adj) && StrictlyUpper(adj) && i < |adj|
    ensures AllBelow(Parents(adj, i, |adj|), i)
  {
    var ps := Parents(adj, i, |adj|);
    forall j | 0 <= j < |ps| ensures ps[j] < i {
      assert adj[ps[j]][i] == 1;
    }
  }

  /** The value the generated code gives node i once nodes 0 .. i-1 hold `world`: a root is
      True, or the negation of its factual value when it is intervened on; any other node is
      its equation over its parents. */
  ghost function NodeSpec(adj: Matrix, opts: seq<seq<int>>, whatif: Option<seq<nat>>, fact: seq<bool>,
                          world: seq<bool>, i: nat): bool
    requires AssignInputs(adj, opts, whatif, fact) && i < |adj| && |world| == i
  {
    if GraphUtils.InDegree(adj, i) == 0 then
      (if whatif.Some? && i in whatif.value then !fact[i] else true)
    else
      assert OptsFit(adj, opts, i);
      ParentsBelowSelf(adj, i);
      PyValue(world, Parents(adj, i, |adj|), opts[i], |Parents(adj, i, |adj|)|)
  }

  /** The values of nodes 0 .. n-1, each computed from the ones before it. */
  ghost function Assignment(adj: Matrix, opts: seq<seq<int>>, whatif: Option<seq<nat>>, fact: seq<bool>,
                            n: nat): (values: seq<bool>)
    requires AssignInputs(adj, opts, whatif, fact) && n <= |adj|
    ensures |values| == n
  {
    if n == 0 then []
    else
      var prev := Assignment(adj, opts, whatif, fact, n - 1);
      prev + [NodeSpec(adj, opts, whatif, fact, prev, n - 1)]
  }

  lemma {:induction false} AssignmentPrefix(adj: Matrix, opts: seq<seq<int>>, whatif: Option<seq<nat>>,
                                            fact: seq<bool>, m: nat, n: nat)
    requires AssignInputs(adj, opts, whatif, fact) && m <= n <= |adj|
    ensures Assignment(adj, opts, whatif, fact, n)[..m] == Assignment(adj, opts, whatif, fact, m)
    decreases n - m
  {
    if m < n {
      AssignmentPrefix(adj, opts, whatif, fact, m, n - 1);
      var prev := Assignment(adj, opts, whatif, fact, n - 1);
      var x := NodeSpec(adj, opts, whatif, fact, prev, n - 1);
      SnocPrefix(prev, x, m);
      assert Assignment(adj, opts, whatif, fact, n)[..m] == prev[..m];
    } else {
      assert Assignment(adj, opts, whatif, fact, n)[..m] == Assignment(adj, opts, whatif, fact, m);
    }
  }

  lemma SnocPrefix<T>(s: seq<T>, x: T, m: nat)
    requires m <= |s|
    ensures (s + [x])[..m] == s[..m]
  {
  }

  /** The assignment solves the structural equations: each value is the node's equation
      read over the values of the nodes before it. */
  lemma AssignmentSolves(adj: Matrix, opts: seq<seq<int>>, whatif: Option<seq<nat>>, fact: seq<bool>, i: nat)
    requires AssignInputs(adj, opts, whatif, fact) && i < |adj|
    ensures var values := Assignment(adj, opts, whatif, fact, |adj|);
      values[i] == NodeSpec(adj, opts, whatif, fact, values[..i], i)
  {
    AssignmentPrefix(adj, opts, whatif, fact, i + 1, |adj|);
    AssignmentPrefix(adj, opts, whatif, fact, i, |adj|);
    var values := Assignment(adj, opts, whatif, fact, |adj|);
    assert values[i] == values[..i + 1][i];
  }

  /** Without an intervention every root is True. */
  lemma FactualRootsTrue(adj: Matrix, opts: seq<seq<int>>, i: nat)
    requires AssignInputs(adj, opts, None, []) && i < |adj| && GraphUtils.InDegree(adj, i) == 0
    ensures Assignment(adj, opts, None, [], |adj|)[i]
  {
    AssignmentSolves(adj, opts, None, [], i);
  }

  /** cf_bool_assign, evaluating the equations directly instead of generating and running code. */
  method CfBoolAssign(adj: Matrix, opts: seq<seq<int>>, whatif: Option<seq<nat>>, fact: seq<bool>)
    returns (values: seq<bool>)
    requires AssignInputs(adj, opts, whatif, fact)
    ensures values == Assignment(adj, opts, whatif, fact, |adj|)
  {
    values := [];
    for i := 0 to |adj|
      invariant values == Assignment(adj, opts, whatif, fact, i)
    {
      var v := AssignNode(adj, opts, whatif, fact, values, i);
      AssignmentSnoc(adj, opts, whatif, fact, i);
      values := values + [v];
    }
  }

  lemma AssignmentSnoc(adj: Matrix, opts: seq<seq<int>>, whatif: Option<seq<nat>>, fact: seq<bool>, n: nat)
    requires AssignInputs(adj, opts, whatif, fact) && n < |adj|
    ensures Assignment(adj, opts, whatif, fact, n + 1) ==
      Assignment(adj, opts, whatif, fact, n) + [NodeSpec(adj, opts, whatif, fact, Assignment(adj, opts, whatif, fact, n), n)]
  {
  }

  /** One line of the generated code: a root's constant, or a non-root's equation. */
  method AssignNode(adj: Matrix, opts: seq<seq<int>>, whatif: Option<seq<nat>>, fact: seq<bool>,
                    world: seq<bool>, i: nat) returns (v: bool)
    requires AssignInputs(adj, opts, whatif, fact) && i < |adj| && |world| == i
    ensures v == NodeSpec(adj, opts, whatif, fact, world, i)
  {
    if GraphUtils.InDegree(adj, i) == 0 {
      v := if whatif.Some? && i in whatif.value then !fact[i] else true;
    } else {
      assert OptsFit(adj, opts, i);
      ParentsBelowSelf(adj, i);
      v := NodeValue(adj, opts[i], world, i);
    }
  }

  // ---------------------------------------------------------------------------
  // Intervention: cut the incoming edges of the what-if nodes and flip them
  // ---------------------------------------------------------------------------

  /** The matrix with the columns of the nodes in w set to 0 (adj_mat_cf[:, i] = 0). */
  function ZeroColumns(adj: Matrix, w: seq<nat>): (r: Matrix)
    ensures |r| == |adj| && forall i :: 0 <= i < |adj| ==> |r[i]| == |adj[i]|
  {
    seq(|adj|, i requires 0 <= i < |adj| => seq(|adj[i]|, j requires 0 <= j < |adj[i]| => if j in w then 0 else adj[i][j]))
  }

  /** Two matrices with the same column i have the same parents and in-degree for i. */
  lemma {:induction false} SameColumn(a: Matrix, b: Matrix, i: nat, k: nat)
    requires IsSquare(a) && IsSquare(b) && |a| == |b| && i < |a| && k <= |a|
    requires forall r :: 0 <= r < |a| ==> a[r][i] == b[r][i]
    ensures Parents(a, i, k) == Parents(b, i, k)
    ensures GraphUtils.ColumnSum(a, i, k) == GraphUtils.ColumnSum(b, i, k)
  {
    if k > 0 {
      SameColumn(a, b, i, k - 1);
    }
  }

  /** The intervened matrix is a valid input for the counterfactual pass with the factual
      operator lists: every what-if node becomes a root, no other column changes. */
  lemma InterventionInputs(adj: Matrix, opts: seq<seq<int>>, w: seq<nat>, fact: seq<bool>)
    requires AssignInputs(adj, opts, None, []) && |fact| == |adj|
    ensures AssignInputs(ZeroColumns(adj, w), opts, Some(w), fact)
    ensures forall i :: 0 <= i < |adj| && i in w ==> GraphUtils.InDegree(ZeroColumns(adj, w), i) == 0
  {
    var z := ZeroColumns(adj, w);
    forall i | 0 <= i < |adj| ensures OptsFit(z, opts, i) {
      if i !in w {
        SameColumn(adj, z, i, |adj|);
        assert OptsFit(adj, opts, i);
      }
    }
  }

  /** f_assign: the factual pass. */
  ghost function Factual(adj: Matrix, opts: seq<seq<int>>): (f: seq<bool>)
    requires AssignInputs(adj, opts, None, [])
  {
    Assignment(adj, opts, None, [], |adj|)
  }

  /** cf_assign: the pass over the intervened matrix, with the what-if nodes negated. */
  ghost function Counterfactual(adj: Matrix, opts: seq<seq<int>>, w: seq<nat>): seq<bool>
    requires AssignInputs(adj, opts, None, [])
  {
    var f := Factual(adj, opts);
    InterventionInputs(adj, opts, w, f);
    Assignment(ZeroColumns(adj, w), opts, Some(w), f, |adj|)
  }

  /** Node i is intervened on or has an intervened ancestor. */
  ghost predicate Tainted(adj: Matrix, w: seq<nat>, i: nat)
    requires IsSquare(adj) && i < |adj|
    decreases i
  {
    i in w || exists k :: 0 <= k < i && adj[k][i] == 1 && Tainted(adj, w, k)
  }

  lemma {:induction false} RunAndCongruent(w1: seq<bool>, w2: seq<bool>, ps: seq<nat>, opts: seq<int>, s: nat, d: nat)
    requires d <= |ps| && 2 * d <= |opts| + 1 && AllBelow(ps, |w1|) && AllBelow(ps, |w2|)
    requires forall j :: 0 <= j < d ==> w1[ps[j]] == w2[ps[j]]
    ensures RunAnd(w1, ps, opts, s, d) == RunAnd(w2, ps, opts, s, d)
    decreases d
  {
    if s < d {
      RunAndCongruent(w1, w2, ps, opts, s, d - 1);
    }
  }

  /** An equation's value depends only on the values of its parents. */
  lemma {:induction false} PyValueCongruent(w1: seq<bool>, w2: seq<bool>, ps: seq<nat>, opts: seq<int>, d: nat)
    requires 1 <= d <= |ps| && 2 * d <= |opts| + 1 && AllBelow(ps, |w1|) && AllBelow(ps, |w2|)
    requires forall j :: 0 <= j < d ==> w1[ps[j]] == w2[ps[j]]
    ensures PyValue(w1, ps, opts, d) == PyValue(w2, ps, opts, d)
    decreases d
  {
    match LastOr(opts, d)
    case None =>
      RunAndCongruent(w1, w2, ps, opts, 0, d);
    case Some(m) =>
      PyValueCongruent(w1, w2, ps, opts, m + 1);
      RunAndCongruent(w1, w2, ps, opts, m + 1, d);
  }

  /** Every intervened node takes the negation of its factual value. */
  lemma InterventionFlips(adj: Matrix, opts: seq<seq<int>>, w: seq<nat>, x: nat)
    requires AssignInputs(adj, opts, None, []) && x in w && x < |adj|
    ensures Counterfactual(adj, opts, w)[x] == !Factual(adj, opts)[x]
  {
    var f := Factual(adj, opts);
    InterventionInputs(adj, opts, w, f);
    AssignmentSolves(ZeroColumns(adj, w), opts, Some(w), f, x);
  }

  /** A node that is not intervened on and has no intervened ancestor keeps its factual value. */
  lemma {:induction false} UntaintedAgree(adj: Matrix, opts: seq<seq<int>>, w: seq<nat>, i: nat)
    requires AssignInputs(adj, opts, None, []) && i < |adj| && !Tainted(adj, w, i)
    ensures Counterfactual(adj, opts, w)[i] == Factual(adj, opts)[i]
    decreases i, 1
  {
    var f := Factual(adj, opts);
    var z := ZeroColumns(adj, w);
    InterventionInputs(adj, opts, w, f);
    var c := Counterfactual(adj, opts, w);
    AssignmentSolves(adj, opts, None, [], i);
    AssignmentSolves(z, opts, Some(w), f, i);
    SameColumn(adj, z, i, |adj|);
    if GraphUtils.InDegree(adj, i) != 0 {
      var ps := Parents(adj, i, |adj|);
      ParentsBelowSelf(adj, i);
      ParentsAgree(adj, opts, w, i);
      assert OptsFit(adj, opts, i);
      PrefixAgree(c, f, ps, i);
      PyValueCongruent(c[..i], f[..i], ps, opts[i], |ps|);
    }
  }

  /** The parents of an untainted node keep their factual values. */
  lemma {:induction false} ParentsAgree(adj: Matrix, opts: seq<seq<int>>, w: seq<nat>, i: nat)
    requires AssignInputs(adj, opts, None, []) && i < |adj| && !Tainted(adj, w, i)
    ensures var ps := Parents(adj, i, |adj|);
      |Counterfactual(adj, opts, w)| == |Factual(adj, opts)| == |adj| &&
      forall j :: 0 <= j < |ps| ==> Counterfactual(adj, opts, w)[ps[j]] == Factual(adj, opts)[ps[j]]
    decreases i, 0
  {
    var ps := Parents(adj, i, |adj|);
    forall j | 0 <= j < |ps| ensures Counterfactual(adj, opts, w)[ps[j]] == Factual(adj, opts)[ps[j]] {
      UntaintedParent(adj, w, i, ps[j]);
      UntaintedAgree(adj, opts, w, ps[j]);
    }
  }

  lemma UntaintedParent(adj: Matrix, w: seq<nat>, i: nat, k: nat)
    requires IsSquare(adj) && StrictlyUpper(adj) && i < |adj| && !Tainted(adj, w, i)
    requires k in Parents(adj, i, |adj|)
    ensures k < i && !Tainted(adj, w, k)
  {
    assert adj[k][i] == 1;
  }

  lemma PrefixAgree(c: seq<bool>, f: seq<bool>, ps: seq<nat>, i: nat)
    requires i <= |c| && i <= |f| && AllBelow(ps, i)
    requires forall j :: 0 <= j < |ps| ==> c[ps[j]] == f[ps[j]]
    ensures forall j :: 0 <= j < |ps| ==> c[..i][ps[j]] == f[..i][ps[j]]
  {
  }

  lemma {:induction false} NothingTainted(adj: Matrix, i: nat)
    requires IsSquare(adj) && i < |adj|
    ensures !Tainted(adj, [], i)
    decreases i
  {
    forall k | 0 <= k < i ensures !Tainted(adj, [], k) {
      NothingTainted(adj, k);
    }
  }

  /** With no what-if node the two passes coincide. */
  lemma NoIntervention(adj: Matrix, opts: seq<seq<int>>)
    requires AssignInputs(adj, opts, None, [])
    ensures Counterfactual(adj, opts, []) == Factual(adj, opts)
  {
    forall i | 0 <= i < |adj| ensures Counterfactual(adj, opts, [])[i] == Factual(adj, opts)[i] {
      NothingTainted(adj, i);
      UntaintedAgree(adj, opts, [], i);
    }
  }

  // ---------------------------------------------------------------------------
  // The counterfactual query
  // ---------------------------------------------------------------------------

  /** The nodes below k with in-degree 0, ascending (observed_node, the clue). */
  function Roots(adj: Matrix, k: nat): (r: seq<nat>)
    requires IsSquare(adj) && k <= |adj|
    ensures forall j :: 0 <= j < |r| ==> r[j] < k && GraphUtils.InDegree(adj, r[j]) == 0
    ensures forall x: nat :: x < k && GraphUtils.InDegree(adj, x) == 0 ==> x in r
    ensures forall a, b :: 0 <= a < b < |r| ==> r[a] < r[b]
  {
    if k == 0 then []
    else
      var prev := Roots(adj, k - 1);
      assert forall a :: 0 <= a < |prev| ==> prev[a] < k - 1;
      prev + (if GraphUtils.InDegree(adj, k - 1) == 0 then [k - 1] else [])
  }

  /** The nodes of xs with non-zero in-degree, in their order in xs. */
  function NonRoots(adj: Matrix, xs: seq<nat>): (r: seq<nat>)
    requires IsSquare(adj) && AllBelow(xs, |adj|)
    ensures forall x: nat :: x in r <==> x in xs && GraphUtils.InDegree(adj, x) != 0
  {
    if |xs| == 0 then []
    else
      var last := xs[|xs| - 1];
      NonRoots(adj, xs[..|xs| - 1]) + (if GraphUtils.InDegree(adj, last) != 0 then [last] else [])
  }

  /** The nodes of xs that are not in q, in their order in xs. */
  function NotIn(xs: seq<nat>, q: seq<nat>): seq<nat>
  {
    if |xs| == 0 then [] else NotIn(xs[..|xs| - 1], q) + (if xs[|xs| - 1] !in q then [xs[|xs| - 1]] else [])
  }

  /** The filter keeps exactly the nodes of xs outside q. */
  lemma {:induction false} NotInMembers(xs: seq<nat>, q: seq<nat>)
    ensures forall x :: x in NotIn(xs, q) <==> x in xs && x !in q
  {
    if |xs| > 0 {
      NotInMembers(xs[..|xs| - 1], q);
      assert xs == xs[..|xs| - 1] + [xs[|xs| - 1]];
    }
  }

  lemma NotInSnoc(xs: seq<nat>, x: nat, q: seq<nat>)
    ensures NotIn(xs + [x], q) == NotIn(xs, q) + (if x !in q then [x] else [])
  {
    assert (xs + [x])[..|xs|] == xs;
  }

  lemma {:induction false} NotInDistinct(xs: seq<nat>, q: seq<nat>)
    requires Distinct(xs)
    ensures Distinct(NotIn(xs, q))
  {
    if |xs| > 0 {
      var init := xs[..|xs| - 1];
      assert Distinct(init);
      NotInDistinct(init, q);
      NotInMembers(init, q);
      assert xs[|xs| - 1] !in init;
    }
  }

  lemma FlattenBelow(tiers: seq<seq<nat>>, n: nat)
    requires forall t :: 0 <= t < |tiers| ==> AllBelow(tiers[t], n)
    ensures AllBelow(GraphUtils.Flatten(tiers), n)
  {
    if |tiers| > 0 {
      FlattenBelow(tiers[..|tiers| - 1], n);
    }
  }

  /** query_node: the last tier's nodes that have a parent. */
  function QueryNodes(adj: Matrix, tiers: seq<seq<nat>>): seq<nat>
    requires IsSquare(adj) && |tiers| > 0 && AllBelow(tiers[|tiers| - 1], |adj|)
  {
    NonRoots(adj, tiers[|tiers| - 1])
  }

  /** whatif_candidates: every tier node, tier by tier, that is not a query node. */
  function Candidates(adj: Matrix, tiers: seq<seq<nat>>): seq<nat>
    requires IsSquare(adj) && |tiers| > 0 && AllBelow(tiers[|tiers| - 1], |adj|)
  {
    NotIn(GraphUtils.Flatten(tiers), QueryNodes(adj, tiers))
  }

  /** The number of nodes random.sample draws: whatif_n, or every candidate if there are fewer. */
  function SampleSize(whatifN: nat, c: nat): (k: nat)
    ensures k <= c && k <= whatifN && (k == c || k == whatifN)
  {
    if whatifN <= c then whatifN else c
  }

  /** The positions random.sample picks: k distinct positions of a population of c. */
  ghost predicate SamplePicks(picks: seq<nat>, k: nat, c: nat) {
    |picks| == k && Distinct(picks) && AllBelow(picks, c)
  }

  /** The drawn sample itself. */
  function Sample(pop: seq<nat>, picks: seq<nat>): (r: seq<nat>)
    requires AllBelow(picks, |pop|)
    ensures |r| == |picks| && forall j :: 0 <= j < |r| ==> r[j] in pop
    ensures Distinct(pop) && Distinct(picks) ==> Distinct(r)
  {
    seq(|picks|, j requires 0 <= j < |picks| => pop[picks[j]])
  }

  /** What cf_qa_gen returns, without the generated expression strings. */
  datatype CfQa = CfQa(whatifN: int, nodeOpt: seq<seq<int>>, clue: seq<nat>, whatif: seq<nat>,
                       query: seq<nat>, fAssign: seq<bool>, cfAssign: seq<bool>)

  /** adj_mat.copy() */
  method CopyMatrix(a: array2<int>) returns (b: array2<int>)
    ensures fresh(b) && b.Length0 == a.Length0 && b.Length1 == a.Length1
    ensures GraphUtils.Snapshot(b) == GraphUtils.Snapshot(a)
  {
    b := new int[a.Length0, a.Length1]((i, j) requires 0 <= i < a.Length0 && 0 <= j < a.Length1 reads a => a[i, j]);
    assert GraphUtils.Snapshot(b) == GraphUtils.Snapshot(a) by {
      forall i | 0 <= i < a.Length0 ensures GraphUtils.Snapshot(b)[i] == GraphUtils.Snapshot(a)[i] {
      }
    }
  }

  /** for i in whatif_node: adj_mat_cf[:, i] = 0, in place. */
  method ZeroOutColumns(m: array2<int>, w: seq<nat>)
    requires m.Length0 == m.Length1 && AllBelow(w, m.Length1)
    modifies m
    ensures GraphUtils.Snapshot(m) == ZeroColumns(old(GraphUtils.Snapshot(m)), w)
  {
    ghost var before := GraphUtils.Snapshot(m);
    for t := 0 to |w|
      invariant forall a, b :: 0 <= a < m.Length0 && 0 <= b < m.Length1 ==>
        m[a, b] == if b in w[..t] then 0 else before[a][b]
    {
      for r := 0 to m.Length0
        invariant forall a, b :: 0 <= a < m.Length0 && 0 <= b < m.Length1 ==>
          m[a, b] == if b in w[..t] || (b == w[t] && a < r) then 0 else before[a][b]
      {
        m[r, w[t]] := 0;
      }
      assert forall b :: b in w[..t + 1] <==> b in w[..t] || b == w[t] by {
        assert w[..t + 1] == w[..t] + [w[t]];
      }
    }
    assert w[..|w|] == w;
    ghost var after := ZeroColumns(before, w);
    assert GraphUtils.Snapshot(m) == after by {
      forall i | 0 <= i < m.Length0 ensures GraphUtils.Snapshot(m)[i] == after[i] {
      }
    }
  }

  /** What cf_qa_gen promises about its result q, for matrix m, tiers and sample picks. */
  ghost predicate IsCfQa(m: Matrix, nodeTier: seq<seq<nat>>, whatifN: nat, picks: seq<nat>, q: CfQa)
    requires IsSquare(m) && ZeroOne(m) && StrictlyUpper(m) && |nodeTier| > 0
    requires AllBelow(nodeTier[|nodeTier| - 1], |m|)
    requires SamplePicks(picks, SampleSize(whatifN, |Candidates(m, nodeTier)|), |Candidates(m, nodeTier)|)
  {
    var cands := Candidates(m, nodeTier);
    q.whatifN == whatifN && OptsFor(m, q.nodeOpt) &&
    q.clue == Roots(m, |m|) && q.query == QueryNodes(m, nodeTier) &&
    q.whatif == Sample(cands, picks) && |q.whatif| == SampleSize(whatifN, |cands|) &&
    (forall x :: x in q.whatif ==> x in GraphUtils.Flatten(nodeTier) && x !in q.query) &&
    (Distinct(GraphUtils.Flatten(nodeTier)) ==> Distinct(q.whatif)) &&
    AssignInputs(m, q.nodeOpt, None, []) &&
    q.fAssign == Factual(m, q.nodeOpt) && q.cfAssign == Counterfactual(m, q.nodeOpt, q.whatif)
  }

  /** cf_qa_gen: the clue, query and what-if nodes, the operator lists, and the factual and
      counterfactual assignments. np.random.randint and random.sample are the caller's draws;
      None stands for the IndexError on an empty tier list and the ValueError of a negative
      sample size. */
  method CfQaGen(nodeTier: seq<seq<nat>>, adj: array2<int>, whatifN: int,
                 edgeDraws: seq<seq<int>>, combDraws: seq<seq<int>>, picks: seq<nat>)
    returns (r: Option<CfQa>)
    requires adj.Length0 == adj.Length1
    requires ZeroOne(GraphUtils.Snapshot(adj)) && StrictlyUpper(GraphUtils.Snapshot(adj))
    requires forall t :: 0 <= t < |nodeTier| ==> AllBelow(nodeTier[t], adj.Length0)
    requires |edgeDraws| == adj.Length0 && |combDraws| == adj.Length0
    requires forall i :: 0 <= i < adj.Length0 && GraphUtils.InDegree(GraphUtils.Snapshot(adj), i) != 0 ==>
      DrawsFit(edgeDraws[i], combDraws[i], GraphUtils.InDegree(GraphUtils.Snapshot(adj), i))
    requires whatifN >= 0 && |nodeTier| > 0 ==>
      var c := |Candidates(GraphUtils.Snapshot(adj), nodeTier)|;
      SamplePicks(picks, SampleSize(whatifN, c), c)
    ensures r.None? <==> |nodeTier| == 0 || whatifN < 0
    ensures r.Some? ==> IsCfQa(GraphUtils.Snapshot(adj), nodeTier, whatifN, picks, r.value)
  {
    var m := GraphUtils.Snapshot(adj);
    var n := adj.Length0;
    var inDegree := GraphUtils.ColumnSums(adj);
    var observed := ObservedNodes(m, inDegree);
    if |nodeTier| == 0 {
      return None;
    }
    var query := LastTierQuery(m, inDegree, nodeTier[|nodeTier| - 1]);
    var cands := CollectCandidates(nodeTier, query);
    FlattenBelow(nodeTier, n);
    var nodeOpt := GetNodeOpts(m, edgeDraws, combDraws);
    if whatifN < 0 {
      return None;
    }
    var whatif := Sample(cands, picks);
    NotInMembers(GraphUtils.Flatten(nodeTier), query);
    assert AllBelow(whatif, n) by {
      forall j | 0 <= j < |whatif| ensures whatif[j] < n {
        assert whatif[j] in GraphUtils.Flatten(nodeTier);
      }
    }
    OptsForInputs(m, nodeOpt);
    var fAssign, cfAssign := FactualAndCounterfactual(adj, nodeOpt, whatif);
    if Distinct(GraphUtils.Flatten(nodeTier)) {
      NotInDistinct(GraphUtils.Flatten(nodeTier), query);
    }
    assert forall x :: x in whatif ==> x in GraphUtils.Flatten(nodeTier) && x !in query;
    r := Some(CfQa(whatifN, nodeOpt, observed, whatif, query, fAssign, cfAssign));
  }

  /** The two cf_bool_assign passes: over adj_mat, and over the copy with the what-if columns
      zeroed, which leaves adj_mat itself untouched. */
  method FactualAndCounterfactual(adj: array2<int>, nodeOpt: seq<seq<int>>, whatif: seq<nat>)
    returns (fAssign: seq<bool>, cfAssign: seq<bool>)
    requires adj.Length0 == adj.Length1 && AllBelow(whatif, adj.Length0)
    requires AssignInputs(GraphUtils.Snapshot(adj), nodeOpt, None, [])
    ensures fAssign == Factual(GraphUtils.Snapshot(adj), nodeOpt)
    ensures cfAssign == Counterfactual(GraphUtils.Snapshot(adj), nodeOpt, whatif)
  {
    var m := GraphUtils.Snapshot(adj);
    var cf := CopyMatrix(adj);
    ZeroOutColumns(cf, whatif);
    fAssign := CfBoolAssign(m, nodeOpt, None, []);
    InterventionInputs(m, nodeOpt, whatif, fAssign);
    cfAssign := CfBoolAssign(GraphUtils.Snapshot(cf), nodeOpt, Some(whatif), fAssign);
  }

  /** Every cf_qa_gen result flips the what-if nodes and leaves the nodes without an
      intervened ancestor at their factual values. */
  lemma CfQaIntervention(m: Matrix, nodeTier: seq<seq<nat>>, whatifN: nat, picks: seq<nat>, q: CfQa)
    requires IsSquare(m) && ZeroOne(m) && StrictlyUpper(m) && |nodeTier| > 0
    requires AllBelow(nodeTier[|nodeTier| - 1], |m|)
    requires SamplePicks(picks, SampleSize(whatifN, |Candidates(m, nodeTier)|), |Candidates(m, nodeTier)|)
    requires IsCfQa(m, nodeTier, whatifN, picks, q)
    ensures |q.fAssign| == |q.cfAssign| == |m|
    ensures forall x :: x in q.whatif && x < |m| ==> q.cfAssign[x] == !q.fAssign[x]
    ensures forall i :: 0 <= i < |m| && !Tainted(m, q.whatif, i) ==> q.cfAssign[i] == q.fAssign[i]
  {
    forall x | x in q.whatif && x < |m| ensures q.cfAssign[x] == !q.fAssign[x] {
      InterventionFlips(m, q.nodeOpt, q.whatif, x);
    }
    forall i | 0 <= i < |m| && !Tainted(m, q.whatif, i) ensures q.cfAssign[i] == q.fAssign[i] {
      UntaintedAgree(m, q.nodeOpt, q.whatif, i);
    }
  }

  /** The observed-node loop over the in-degree vector. */
  method ObservedNodes(m: Matrix, inDegree: seq<int>) returns (observed: seq<nat>)
    requires IsSquare(m) && |inDegree| == |m|
    requires forall k :: 0 <= k < |m| ==> inDegree[k] == GraphUtils.InDegree(m, k)
    ensures observed == Roots(m, |m|)
  {
    observed := [];
    for i := 0 to |m|
      invariant observed == Roots(m, i)
    {
      if inDegree[i] == 0 {
        observed := observed + [i];
      }
    }
  }

  /** The query-node loop over the last tier. */
  method LastTierQuery(m: Matrix, inDegree: seq<int>, last: seq<nat>) returns (query: seq<nat>)
    requires IsSquare(m) && |inDegree| == |m| && AllBelow(last, |m|)
    requires forall k :: 0 <= k < |m| ==> inDegree[k] == GraphUtils.InDegree(m, k)
    ensures query == NonRoots(m, last)
  {
    query := [];
    for j := 0 to |last|
      invariant query == NonRoots(m, last[..j])
    {
      assert last[..j + 1][..j] == last[..j];
      if inDegree[last[j]] != 0 {
        query := query + [last[j]];
      }
    }
    assert last[..|last|] == last;
  }

  /** The candidate loop: every node of every tier, in order, that is not a query node. */
  method CollectCandidates(nodeTier: seq<seq<nat>>, query: seq<nat>) returns (cands: seq<nat>)
    ensures cands == NotIn(GraphUtils.Flatten(nodeTier), query)
  {
    cands := [];
    for t := 0 to |nodeTier|
      invariant cands == NotIn(GraphUtils.Flatten(nodeTier[..t]), query)
    {
      cands := CollectTier(cands, GraphUtils.Flatten(nodeTier[..t]), nodeTier[t], query);
      assert nodeTier[..t + 1][..t] == nodeTier[..t];
    }
    assert nodeTier[..|nodeTier|] == nodeTier;
  }

  /** for n in t: if n not in query_node: whatif_candidates.append(n) */
  method CollectTier(cands: seq<nat>, ghost done: seq<nat>, tier: seq<nat>, query: seq<nat>)
    returns (cands': seq<nat>)
    requires cands == NotIn(done, query)
    ensures cands' == NotIn(done + tier, query)
  {
    cands' := cands;
    assert done + tier[..0] == done;
    for j := 0 to |tier|
      invariant cands' == NotIn(done + tier[..j], query)
    {
      NotInSnoc(done + tier[..j], tier[j], query);
      assert done + tier[..j + 1] == (done + tier[..j]) + [tier[j]];
      if tier[j] !in query {
        cands' := cands' + [tier[j]];
      }
    }
    assert tier[..|tier|] == tier;
  }

  /** Operator lists as get_node_opts produces them satisfy what cf_bool_assign needs. */
  lemma OptsForInputs(adj: Matrix, opts: seq<seq<int>>)
    requires IsSquare(adj) && ZeroOne(adj) && StrictlyUpper(adj) && OptsFor(adj, opts)
    ensures AssignInputs(adj, opts, None, [])
  {
    forall i | 0 <= i < |adj| ensures OptsFit(adj, opts, i) {
    }
  }
}
