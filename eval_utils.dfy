/** The answer validators: backdoor blocking of a control set, causal-path matching,
    and event-state checking against the ground-truth assignment. */
module EvalUtils {
  import opened Common

  // ---------------------------------------------------------------------------
  // Python string built-ins the validators use
  // ---------------------------------------------------------------------------

  /** str.split(sep) for a non-empty separator: the pieces between non-overlapping
      occurrences of sep, scanned left to right; there is always at least one piece. */
  function Split(s: string, sep: string): (r: seq<string>)
    requires |sep| > 0
    ensures |r| >= 1
    decreases |s|
  {
    if |s| < |sep| then [s]
    else if s[..|sep|] == sep then [""] + Split(s[|sep|..], sep)
    else
      var rest := Split(s[1..], sep);
      [[s[0]] + rest[0]] + rest[1..]
  }

  /** sep.join(parts) */
  function Join(parts: seq<string>, sep: string): string {
    if |parts| == 0 then ""
    else if |parts| == 1 then parts[0]
    else parts[0] + sep + Join(parts[1..], sep)
  }

  lemma JoinAfterEmpty(rest: seq<string>, sep: string)
    requires |rest| >= 1
    ensures Join([""] + rest, sep) == sep + Join(rest, sep)
  {
    assert ([""] + rest)[1..] == rest;
  }

  lemma JoinAfterChar(c: char, rest: seq<string>, sep: string)
    requires |rest| >= 1
    ensures Join([[c] + rest[0]] + rest[1..], sep) == [c] + Join(rest, sep)
  {
    var r := [[c] + rest[0]] + rest[1..];
    if |rest| > 1 {
      assert r[1..] == rest[1..];
    }
  }

  /** Splitting loses nothing: joining the pieces with the separator gives the string back. */
  lemma {:induction false} JoinSplit(s: string, sep: string)
    requires |sep| > 0
    ensures Join(Split(s, sep), sep) == s
    decreases |s|
  {
    if |s| < |sep| {
    } else if s[..|sep|] == sep {
      JoinSplit(s[|sep|..], sep);
      JoinAfterEmpty(Split(s[|sep|..], sep), sep);
      assert s == sep + s[|sep|..];
    } else {
      JoinSplit(s[1..], sep);
      JoinAfterChar(s[0], Split(s[1..], sep), sep);
      assert s == [s[0]] + s[1..];
    }
  }

  /** With a one-character separator no piece contains it, so the pieces are exactly the
      maximal separator-free runs between occurrences. */
  lemma {:induction false} SplitPiecesAvoidSeparator(s: string, c: char)
    ensures forall k :: 0 <= k < |Split(s, [c])| ==> c !in Split(s, [c])[k]
    decreases |s|
  {
    if |s| >= 1 {
      var rest := Split(s[1..], [c]);
      SplitPiecesAvoidSeparator(s[1..], c);
      if s[..1] != [c] {
        assert s[0] != c by { assert s[..1] == [s[0]]; }
        var r := Split(s, [c]);
        assert r == [[s[0]] + rest[0]] + rest[1..];
        forall k | 0 <= k < |r|
          ensures c !in r[k]
        {
          if k > 0 {
            assert r[k] == rest[k];
          }
        }
      }
    }
  }

  /** A string without the separator character splits into itself alone. */
  lemma {:induction false} SplitWithoutSeparator(s: string, c: char)
    requires c !in s
    ensures Split(s, [c]) == [s]
  {
    if |s| > 0 {
      assert s[..1] != [c] by { assert s[0] != c; }
      assert c !in s[1..] by { assert forall i :: 0 <= i < |s| - 1 ==> s[1..][i] == s[i + 1]; }
      SplitWithoutSeparator(s[1..], c);
      assert [s[0]] + s[1..] == s;
    }
  }

  /** str.isspace() for one character: the ASCII whitespace and separator controls
      and the Unicode space characters. */
  predicate IsSpace(c: char) {
    var n := c as int;
    n == 0x20 || 0x09 <= n <= 0x0D || 0x1C <= n <= 0x1F || n == 0x85 || n == 0xA0 ||
    n == 0x1680 || 0x2000 <= n <= 0x200A || n == 0x2028 || n == 0x2029 || n == 0x202F ||
    n == 0x205F || n == 0x3000
  }

  /** str.lstrip(): a suffix of s that does not start with whitespace; only whitespace is cut. */
  function StripLeft(s: string): (r: string)
    ensures |r| <= |s| && r == s[|s| - |r|..]
    ensures |r| == 0 || !IsSpace(r[0])
    ensures forall k :: 0 <= k < |s| - |r| ==> IsSpace(s[k])
  {
    if |s| > 0 && IsSpace(s[0]) then StripLeft(s[1..]) else s
  }

  /** str.rstrip(): a prefix of s that does not end with whitespace; only whitespace is cut. */
  function StripRight(s: string): (r: string)
    ensures |r| <= |s| && r == s[..|r|]
    ensures |r| == 0 || !IsSpace(r[|r| - 1])
    ensures forall k :: |r| <= k < |s| ==> IsSpace(s[k])
  {
    if |s| > 0 && IsSpace(s[|s| - 1]) then StripRight(s[..|s| - 1]) else s
  }

  /** str.strip() */
  function Strip(s: string): string {
    StripRight(StripLeft(s))
  }

  /** A stripped string neither starts nor ends with whitespace, and stripping it again changes nothing. */
  lemma StripIdempotent(s: string)
    ensures var r := Strip(s); (|r| == 0 || (!IsSpace(r[0]) && !IsSpace(r[|r| - 1]))) && Strip(r) == r
  {
    var l := StripLeft(s);
    var r := StripRight(l);
    if |r| > 0 {
      assert r[0] == l[0];
      assert !IsSpace(r[0]) && !IsSpace(r[|r| - 1]);
    }
    assert StripLeft(r) == r;
    assert StripRight(r) == r;
  }

  function LowerChar(c: char): char {
    if 'A' <= c <= 'Z' then (c as int + 32) as char else c
  }

  /** str.lower() on the ASCII letters. */
  function Lower(s: string): string {
    seq(|s|, i requires 0 <= i < |s| => LowerChar(s[i]))
  }

  /** s.strip().lower() for every piece. */
  function Normalize(parts: seq<string>): (r: seq<string>) {
    seq(|parts|, k requires 0 <= k < |parts| => Lower(Strip(parts[k])))
  }

  /** list.index(x): the first position holding x; None where Python raises ValueError. */
  function IndexOf(xs: seq<string>, x: string): (r: Option<nat>)
    ensures r.Some? ==> r.value < |xs| && xs[r.value] == x && forall j :: 0 <= j < r.value ==> xs[j] != x
    ensures r.None? <==> x !in xs
  {
    if |xs| == 0 then None
    else if xs[0] == x then Some(0)
    else match IndexOf(xs[1..], x)
      case Some(k) => Some(k + 1)
      case None => None
  }

  /** [names.index(f) for f in fs]: None where some lookup raises, which aborts the whole list. */
  function IndicesOf(names: seq<string>, fs: seq<string>): (r: Option<seq<nat>>)
    ensures r.Some? ==> |r.value| == |fs| && forall k :: 0 <= k < |fs| ==> r.value[k] < |names| && names[r.value[k]] == fs[k]
    ensures r.None? <==> exists k :: 0 <= k < |fs| && fs[k] !in names
  {
    if |fs| == 0 then Some([])
    else
      var init := fs[..|fs| - 1];
      match (IndicesOf(names, init), IndexOf(names, fs[|fs| - 1]))
      case (Some(ix), Some(i)) =>
        assert forall k :: 0 <= k < |init| ==> fs[k] == init[k];
        Some(ix + [i])
      case (None, _) =>
        var k :| 0 <= k < |init| && init[k] !in names;
        assert fs[k] == init[k];
        None
      case (_, None) => None
  }

  // ---------------------------------------------------------------------------
  // validate_conf_ctrl: does the control set block every noncausal path?
  // ---------------------------------------------------------------------------

  /** Which index the membership test looks up: the position along the path (as the code is
      written) or the node at that position. */
  datatype Probe = ByPosition | ByNode

  function ProbeAt(probe: Probe, p: seq<nat>, i: nat): nat
    requires i < |p|
  {
    match probe
    case ByPosition => i
    case ByNode => p[i]
  }

  /** Both path neighbours of the node at position i point into it (the in-degree along the path is 2). */
  predicate Collider(adj: Matrix, p: seq<nat>, i: nat)
    requires IsSquare(adj) && AllBelow(p, |adj|) && 1 <= i < |p| - 1
  {
    adj[p[i - 1]][p[i]] + adj[p[i + 1]][p[i]] == 2
  }

  /** Position i stops the path: a collider left out of the control set, or a non-collider in it. */
  predicate BlocksAt(adj: Matrix, ctrl: seq<nat>, probe: Probe, p: seq<nat>, i: nat)
    requires IsSquare(adj) && AllBelow(p, |adj|) && 1 <= i < |p| - 1
  {
    if Collider(adj, p, i) then ProbeAt(probe, p, i) !in ctrl else ProbeAt(probe, p, i) in ctrl
  }

  predicate Blocked(adj: Matrix, ctrl: seq<nat>, probe: Probe, p: seq<nat>)
    requires IsSquare(adj) && AllBelow(p, |adj|)
  {
    exists i :: 1 <= i < |p| - 1 && BlocksAt(adj, ctrl, probe, p, i)
  }

  /** Every node of every noncausal path is a node of the matrix. */
  ghost predicate PathsIn(noncausal: seq<seq<seq<nat>>>, n: nat) {
    forall a, b :: 0 <= a < |noncausal| && 0 <= b < |noncausal[a]| ==> AllBelow(noncausal[a][b], n)
  }

  ghost predicate AllBlocked(adj: Matrix, ctrl: seq<nat>, probe: Probe, noncausal: seq<seq<seq<nat>>>)
    requires IsSquare(adj) && PathsIn(noncausal, |adj|)
  {
    forall a, b :: 0 <= a < |noncausal| && 0 <= b < |noncausal[a]| ==> Blocked(adj, ctrl, probe, noncausal[a][b])
  }

  /** The innermost loop: scan the interior positions for one that blocks the path. */
  method PathBlocked(adj: Matrix, ctrl: seq<nat>, probe: Probe, p: seq<nat>) returns (state: bool)
    requires IsSquare(adj) && AllBelow(p, |adj|)
    ensures state <==> Blocked(adj, ctrl, probe, p)
  {
    state := false;
    var i := 1;
    while i < |p| - 1
      invariant 1 <= i
      invariant forall k :: 1 <= k < i && k < |p| - 1 ==> !BlocksAt(adj, ctrl, probe, p, k)
    {
      var indegree := adj[p[i - 1]][p[i]] + adj[p[i + 1]][p[i]];
      var probed := ProbeAt(probe, p, i);
      if indegree == 2 {
        if probed !in ctrl {
          assert BlocksAt(adj, ctrl, probe, p, i);
          state := true;
          break;
        }
      } else {
        if probed in ctrl {
          assert BlocksAt(adj, ctrl, probe, p, i);
          state := true;
          break;
        }
      }
      i := i + 1;
    }
  }

  /** validate_ctrl_set: False as soon as one noncausal path stays open. */
  method ValidateCtrlSet(adj: Matrix, ctrl: seq<nat>, probe: Probe, noncausal: seq<seq<seq<nat>>>) returns (ok: bool)
    requires IsSquare(adj) && PathsIn(noncausal, |adj|)
    ensures ok <==> AllBlocked(adj, ctrl, probe, noncausal)
  {
    for a := 0 to |noncausal|
      invariant forall a', b :: 0 <= a' < a && 0 <= b < |noncausal[a']| ==> Blocked(adj, ctrl, probe, noncausal[a'][b])
    {
      for b := 0 to |noncausal[a]|
        invariant forall b' :: 0 <= b' < b ==> Blocked(adj, ctrl, probe, noncausal[a][b'])
      {
        var state := PathBlocked(adj, ctrl, probe, noncausal[a][b]);
        if !state {
          return false;
        }
      }
    }
    return true;
  }

  /** The control set the answer names: the comma-separated factors, stripped and lower-cased,
      looked up in the name list; empty when any of them is not a node name. */
  function CtrlSet(names: seq<string>, answer: string): seq<nat> {
    match IndicesOf(names, Normalize(Split(answer, ",")))
    case Some(ix) => ix
    case None => []
  }

  /** validate_conf_ctrl, with the membership test on path positions as written. */
  method ValidateConfCtrl(names: seq<string>, adj: Matrix, noncausal: seq<seq<seq<nat>>>, answer: string)
    returns (ok: bool)
    requires IsSquare(adj) && PathsIn(noncausal, |adj|)
    ensures ok <==> AllBlocked(adj, CtrlSet(names, answer), ByPosition, noncausal)
  {
    var ctrlIdx := [];
    var parsed := IndicesOf(names, Normalize(Split(answer, ",")));
    if parsed.Some? {
      ctrlIdx := parsed.value;
    }
    ok := ValidateCtrlSet(adj, ctrlIdx, ByPosition, noncausal);
  }

  /** With no noncausal path at all, every answer is accepted. */
  lemma NoPathsAcceptsAll(names: seq<string>, adj: Matrix, noncausal: seq<seq<seq<nat>>>, answer: string)
    requires IsSquare(adj) && forall a :: 0 <= a < |noncausal| ==> |noncausal[a]| == 0
    ensures PathsIn(noncausal, |adj|) && AllBlocked(adj, CtrlSet(names, answer), ByPosition, noncausal)
  {
  }

  /** A noncausal path with no interior node (a direct edge) cannot be blocked: every answer is rejected. */
  lemma DirectPathRejectsAll(adj: Matrix, ctrl: seq<nat>, probe: Probe, noncausal: seq<seq<seq<nat>>>, a: nat, b: nat)
    requires IsSquare(adj) && PathsIn(noncausal, |adj|)
    requires a < |noncausal| && b < |noncausal[a]| && |noncausal[a][b]| <= 2
    ensures !AllBlocked(adj, ctrl, probe, noncausal)
  {
    assert !Blocked(adj, ctrl, probe, noncausal[a][b]);
  }

  lemma NormalizedMissing(names: seq<string>, parts: seq<string>, k: nat)
    requires k < |parts| && Lower(Strip(parts[k])) !in names
    ensures IndicesOf(names, Normalize(parts)).None?
  {
    assert Normalize(parts)[k] == Lower(Strip(parts[k]));
  }

  /** One factor that is not a node name empties the control set. */
  lemma UnknownNameEmptiesCtrl(names: seq<string>, answer: string, k: nat)
    requires k < |Split(answer, ",")| && Lower(Strip(Split(answer, ",")[k])) !in names
    ensures CtrlSet(names, answer) == []
  {
    NormalizedMissing(names, Split(answer, ","), k);
  }

  /** The empty control set blocks a path exactly when the path has an interior collider. */
  lemma EmptyCtrlNeedsCollider(adj: Matrix, p: seq<nat>)
    requires IsSquare(adj) && AllBelow(p, |adj|)
    ensures Blocked(adj, [], ByPosition, p) <==> exists i :: 1 <= i < |p| - 1 && Collider(adj, p, i)
  {
    if Blocked(adj, [], ByPosition, p) {
      var i :| 1 <= i < |p| - 1 && BlocksAt(adj, [], ByPosition, p, i);
      assert Collider(adj, p, i);
    }
    if exists i :: 1 <= i < |p| - 1 && Collider(adj, p, i) {
      var i :| 1 <= i < |p| - 1 && Collider(adj, p, i);
      assert BlocksAt(adj, [], ByPosition, p, i);
    }
  }

  function Reverse(p: seq<nat>): (r: seq<nat>)
    ensures |r| == |p| && forall i :: 0 <= i < |p| ==> r[i] == p[|p| - 1 - i]
  {
    if |p| == 0 then [] else Reverse(p[1..]) + [p[0]]
  }

  /** The fork 0 <- 2 -> 1: its backdoor path 0, 2, 1 is blocked by controlling node 2, which
      the position test refuses, while "controlling" position 1, i.e. node 1, the effect
      itself, is accepted. */
  lemma PositionNotNode()
    ensures var adj: Matrix := [[0, 0, 0], [0, 0, 0], [1, 1, 0]];
      IsSquare(adj) && AllBelow([0, 2, 1], 3) &&
      !Blocked(adj, [2], ByPosition, [0, 2, 1]) && Blocked(adj, [1], ByPosition, [0, 2, 1]) &&
      Blocked(adj, [2], ByNode, [0, 2, 1]) && !Blocked(adj, [1], ByNode, [0, 2, 1])
  {
    var adj: Matrix := [[0, 0, 0], [0, 0, 0], [1, 1, 0]];
    var p: seq<nat> := [0, 2, 1];
    assert !Collider(adj, p, 1);
    assert BlocksAt(adj, [1], ByPosition, p, 1);
    assert BlocksAt(adj, [2], ByNode, p, 1);
  }

  /** With edges 2 -> 0, 2 -> 3 and 1 -> 3, the path 0, 2, 3, 1 read from either end is the
      same path, yet the position test calls it blocked by {1} one way and open the other way. */
  lemma PositionDependsOnDirection()
    ensures var adj: Matrix := [[0, 0, 0, 0], [0, 0, 0, 1], [1, 0, 0, 1], [0, 0, 0, 0]];
      IsSquare(adj) && AllBelow([0, 2, 3, 1], 4) && AllBelow([1, 3, 2, 0], 4) &&
      Reverse([0, 2, 3, 1]) == [1, 3, 2, 0] &&
      Blocked(adj, [1], ByPosition, [0, 2, 3, 1]) && !Blocked(adj, [1], ByPosition, [1, 3, 2, 0])
  {
    var adj: Matrix := [[0, 0, 0, 0], [0, 0, 0, 1], [1, 0, 0, 1], [0, 0, 0, 0]];
    ReverseFour(0, 2, 3, 1);
    ForwardBlocked(adj);
    BackwardOpen(adj);
  }

  lemma ReverseFour(a: nat, b: nat, c: nat, d: nat)
    ensures Reverse([a, b, c, d]) == [d, c, b, a]
  {
    var r := Reverse([a, b, c, d]);
    assert r[0] == d && r[1] == c && r[2] == b && r[3] == a;
  }

  lemma ForwardBlocked(adj: Matrix)
    requires adj == [[0, 0, 0, 0], [0, 0, 0, 1], [1, 0, 0, 1], [0, 0, 0, 0]]
    ensures IsSquare(adj) && AllBelow([0, 2, 3, 1], 4) && Blocked(adj, [1], ByPosition, [0, 2, 3, 1])
  {
    assert BlocksAt(adj, [1], ByPosition, [0, 2, 3, 1], 1);
  }

  lemma BackwardOpen(adj: Matrix)
    requires adj == [[0, 0, 0, 0], [0, 0, 0, 1], [1, 0, 0, 1], [0, 0, 0, 0]]
    ensures IsSquare(adj) && AllBelow([1, 3, 2, 0], 4) && !Blocked(adj, [1], ByPosition, [1, 3, 2, 0])
  {
    var q: seq<nat> := [1, 3, 2, 0];
    assert Collider(adj, q, 1) && !Collider(adj, q, 2);
    assert !BlocksAt(adj, [1], ByPosition, q, 1) && !BlocksAt(adj, [1], ByPosition, q, 2);
  }

  /** Testing the node rather than the position, blocking is a property of the path itself:
      reading it from the other end gives the same verdict. */
  lemma NodeTestIgnoresDirection(adj: Matrix, ctrl: seq<nat>, p: seq<nat>)
    requires IsSquare(adj) && AllBelow(p, |adj|)
    ensures AllBelow(Reverse(p), |adj|)
    ensures Blocked(adj, ctrl, ByNode, p) <==> Blocked(adj, ctrl, ByNode, Reverse(p))
  {
    var q := Reverse(p);
    var n := |p|;
    if Blocked(adj, ctrl, ByNode, p) {
      var i :| 1 <= i < n - 1 && BlocksAt(adj, ctrl, ByNode, p, i);
      var j := n - 1 - i;
      assert q[j] == p[i] && q[j - 1] == p[i + 1] && q[j + 1] == p[i - 1];
      assert Collider(adj, q, j) == Collider(adj, p, i);
      assert BlocksAt(adj, ctrl, ByNode, q, j);
    }
    if Blocked(adj, ctrl, ByNode, q) {
      var j :| 1 <= j < n - 1 && BlocksAt(adj, ctrl, ByNode, q, j);
      var i := n - 1 - j;
      assert q[j] == p[i] && q[j - 1] == p[i + 1] && q[j + 1] == p[i - 1];
      assert Collider(adj, q, j) == Collider(adj, p, i);
      assert BlocksAt(adj, ctrl, ByNode, p, i);
    }
  }

  // ---------------------------------------------------------------------------
  // validate_ce_path: the answered paths against the ground-truth causal paths
  // ---------------------------------------------------------------------------

  /** One answer line, "a -> b -> c", as node indices; None when a name is unknown. */
  function ParsePath(names: seq<string>, line: string): Option<seq<nat>> {
    IndicesOf(names, Normalize(Split(line, "->")))
  }

  /** The parsable lines, in order; lines with an unknown name are dropped. */
  function ParsedPaths(names: seq<string>, lines: seq<string>): (r: seq<seq<nat>>)
    ensures |r| <= |lines|
  {
    if |lines| == 0 then []
    else
      ParsedPaths(names, lines[..|lines| - 1]) +
      match ParsePath(names, lines[|lines| - 1]) case Some(q) => [q] case None => []
  }

  /** c2e_path flattened: the path lists of all cause/effect pairs, one after the other. */
  function FlattenPaths(c2e: seq<seq<seq<nat>>>): seq<seq<nat>> {
    if |c2e| == 0 then [] else FlattenPaths(c2e[..|c2e| - 1]) + c2e[|c2e| - 1]
  }

  /** The first loop of validate_ce_path: the answer lines that parse, as index paths. */
  method ParseAnswerPaths(names: seq<string>, ansPath: seq<string>) returns (ansFlat: seq<seq<nat>>)
    ensures ansFlat == ParsedPaths(names, ansPath)
  {
    ansFlat := [];
    for k := 0 to |ansPath|
      invariant ansFlat == ParsedPaths(names, ansPath[..k])
    {
      assert ansPath[..k + 1][..k] == ansPath[..k];
      var parsed := ParsePath(names, ansPath[k]);
      if parsed.Some? {
        ansFlat := ansFlat + [parsed.value];
      }
    }
    assert ansPath[..|ansPath|] == ansPath;
  }

  /** The second loop of validate_ce_path: the ground-truth paths of all pairs in one list. */
  method FlattenTruth(c2e: seq<seq<seq<nat>>>) returns (c2eFlat: seq<seq<nat>>)
    ensures c2eFlat == FlattenPaths(c2e)
  {
    c2eFlat := [];
    for i := 0 to |c2e|
      invariant c2eFlat == FlattenPaths(c2e[..i])
    {
      for j := 0 to |c2e[i]|
        invariant c2eFlat == FlattenPaths(c2e[..i]) + c2e[i][..j]
      {
        assert c2e[i][..j + 1] == c2e[i][..j] + [c2e[i][j]];
        c2eFlat := c2eFlat + [c2e[i][j]];
      }
      assert c2e[..i + 1][..i] == c2e[..i];
      assert c2e[i][..|c2e[i]|] == c2e[i];
    }
    assert c2e[..|c2e|] == c2e;
  }

  /** validate_ce_path: sorted(answers) == sorted(truth), that is, equal as multisets. */
  method ValidateCePath(names: seq<string>, c2e: seq<seq<seq<nat>>>, answer: string) returns (ok: bool)
    ensures ok <==> multiset(ParsedPaths(names, Split(answer, "\n"))) == multiset(FlattenPaths(c2e))
  {
    var ansPath := Split(answer, "\n");
    var ansFlat := ParseAnswerPaths(names, ansPath);
    var c2eFlat := FlattenTruth(c2e);
    ok := multiset(ansFlat) == multiset(c2eFlat);
  }

  lemma {:induction false} ParsedConcat(names: seq<string>, a: seq<string>, b: seq<string>)
    ensures ParsedPaths(names, a + b) == ParsedPaths(names, a) + ParsedPaths(names, b)
    decreases |b|
  {
    if |b| > 0 {
      var b' := b[..|b| - 1];
      assert (a + b)[..|a + b| - 1] == a + b';
      ParsedConcat(names, a, b');
    } else {
      assert a + b == a;
    }
  }

  /** Only the lines matter, not their order: answers whose lines are a rearrangement of
      each other parse to the same multiset of paths. */
  /** Taking one line out of a list of lines takes its path (if any) out of the parsed paths. */
  lemma ParsedAround(names: seq<string>, l: seq<string>, k: nat)
    requires k < |l|
    ensures multiset(l[..k] + l[k + 1..]) == multiset(l) - multiset{l[k]}
    ensures multiset(ParsedPaths(names, l)) ==
      multiset(ParsedPaths(names, l[..k] + l[k + 1..])) + multiset(ParsedPaths(names, [l[k]]))
  {
    assert l == l[..k] + [l[k]] + l[k + 1..];
    ParsedConcat(names, l[..k], [l[k]]);
    ParsedConcat(names, l[..k] + [l[k]], l[k + 1..]);
    ParsedConcat(names, l[..k], l[k + 1..]);
  }

  lemma {:induction false} LineOrderIrrelevant(names: seq<string>, l1: seq<string>, l2: seq<string>)
    requires multiset(l1) == multiset(l2)
    ensures multiset(ParsedPaths(names, l1)) == multiset(ParsedPaths(names, l2))
    decreases |l1|
  {
    if |l1| == 0 {
      assert |l2| == 0;
    } else {
      var n := |l1| - 1;
      var x := l1[n];
      assert x in multiset(l2);
      var k :| 0 <= k < |l2| && l2[k] == x;
      ParsedAround(names, l1, n);
      ParsedAround(names, l2, k);
      assert l1[..n] + l1[n + 1..] == l1[..n];
      LineOrderIrrelevant(names, l1[..n], l2[..k] + l2[k + 1..]);
    }
  }

  /** Reordering the lines of an answer does not change the verdict. */
  lemma AnswerOrderIrrelevant(names: seq<string>, c2e: seq<seq<seq<nat>>>, ans1: string, ans2: string)
    requires multiset(Split(ans1, "\n")) == multiset(Split(ans2, "\n"))
    ensures (multiset(ParsedPaths(names, Split(ans1, "\n"))) == multiset(FlattenPaths(c2e))) <==>
            (multiset(ParsedPaths(names, Split(ans2, "\n"))) == multiset(FlattenPaths(c2e)))
  {
    LineOrderIrrelevant(names, Split(ans1, "\n"), Split(ans2, "\n"));
  }

  /** A line naming an unknown node adds nothing; in particular an answer none of whose lines
      parses (such as "None") is accepted exactly when there is no causal path. */
  lemma {:induction false} UnparsableDropped(names: seq<string>, lines: seq<string>)
    requires forall k :: 0 <= k < |lines| ==> ParsePath(names, lines[k]).None?
    ensures ParsedPaths(names, lines) == []
  {
    if |lines| > 0 {
      var init := lines[..|lines| - 1];
      assert forall k :: 0 <= k < |init| ==> init[k] == lines[k];
      UnparsableDropped(names, init);
    }
  }

  // ---------------------------------------------------------------------------
  // validate_cf_tasks: answered event states against the ground-truth assignment
  // ---------------------------------------------------------------------------

  /** How a line's two fields are collected: as written, the name is appended before the
      state field is read, so a line without a comma leaves a name with no state; paired,
      a line contributes both or neither. */
  datatype Parsing = AsWritten | Paired

  /** What the function does: return a verdict, or raise IndexError out of the comparison loop. */
  datatype Outcome = Returns(result: bool) | RaisesIndexError

  /** The line has a second comma-separated field. */
  predicate HasState(line: string) {
    |Split(line, ",")| >= 2
  }

  /** The state field, stripped (not lower-cased): the two "happened" phrases, the three
      "not happen" phrases, or None for anything else. */
  function StateOf(s: string): (r: Option<bool>)
    ensures r == Some(true) <==> s == "happened" || s == "will happen"
    ensures r == Some(false) <==> s == "didn't happen" || s == "not happen" || s == "will not happen"
  {
    if s == "happened" || s == "will happen" then Some(true)
    else if s == "didn't happen" || s == "not happen" || s == "will not happen" then Some(false)
    else None
  }

  function LineName(line: string): string {
    Lower(Strip(Split(line, ",")[0]))
  }

  function LineState(line: string): Option<bool>
    requires HasState(line)
  {
    StateOf(Strip(Split(line, ",")[1]))
  }

  /** ans_event_name after the lines */
  function AnswerNames(parsing: Parsing, lines: seq<string>): seq<string> {
    if |lines| == 0 then []
    else
      var last := lines[|lines| - 1];
      AnswerNames(parsing, lines[..|lines| - 1]) +
      (if parsing == AsWritten || HasState(last) then [LineName(last)] else [])
  }

  /** ans_event_bool after the lines */
  function AnswerStates(lines: seq<string>): seq<Option<bool>> {
    if |lines| == 0 then []
    else
      var last := lines[|lines| - 1];
      AnswerStates(lines[..|lines| - 1]) + (if HasState(last) then [LineState(last)] else [])
  }

  /** ans_idx: the answered names as node indices, or [] when one of them is unknown. */
  function AnswerIdx(names: seq<string>, answered: seq<string>): seq<nat> {
    match IndicesOf(names, answered)
    case Some(ix) => ix
    case None => []
  }

  /** The comparison loop from position i on. */
  function CompareFrom(idx: seq<nat>, states: seq<Option<bool>>, gt: seq<bool>, i: nat): Outcome
    decreases |idx| - i
  {
    if i >= |idx| then Returns(true)
    else if i >= |states| || idx[i] >= |gt| then RaisesIndexError
    else if states[i] != Some(gt[idx[i]]) then Returns(false)
    else CompareFrom(idx, states, gt, i + 1)
  }

  /** Every queried node is among the answered ones. */
  predicate QueriesAnswered(queryIdx: seq<nat>, idx: seq<nat>) {
    forall q :: q in queryIdx ==> q in idx
  }

  function CfTasksOutcome(parsing: Parsing, names: seq<string>, queryIdx: seq<nat>, gt: seq<bool>, answer: string): Outcome {
    var lines := Split(answer, "\n");
    var idx := AnswerIdx(names, AnswerNames(parsing, lines));
    if QueriesAnswered(queryIdx, idx) then CompareFrom(idx, AnswerStates(lines), gt, 0)
    else Returns(false)
  }

  /** One line of the first loop: the name appended (before the state field is read, as written)
      and the state appended when there is a second field. */
  method ReadLine(parsing: Parsing, l: string) returns (name: seq<string>, state: seq<Option<bool>>)
    ensures name == if parsing == AsWritten || HasState(l) then [LineName(l)] else []
    ensures state == if HasState(l) then [LineState(l)] else []
  {
    name := [];
    state := [];
    var fields := Split(l, ",");
    if parsing == AsWritten {
      name := [Lower(Strip(fields[0]))];
    }
    if |fields| >= 2 {
      if parsing == Paired {
        name := [Lower(Strip(fields[0]))];
      }
      var st := Strip(fields[1]);
      if st == "happened" || st == "will happen" {
        state := [Some(true)];
      } else if st == "didn't happen" || st == "not happen" || st == "will not happen" {
        state := [Some(false)];
      } else {
        state := [None];
      }
    }
  }

  /** The first loop of validate_cf_tasks: the name and state lists read off the lines. */
  method CollectAnswers(parsing: Parsing, ansLines: seq<string>)
    returns (ansEventName: seq<string>, ansEventBool: seq<Option<bool>>)
    ensures ansEventName == AnswerNames(parsing, ansLines)
    ensures ansEventBool == AnswerStates(ansLines)
  {
    ansEventName := [];
    ansEventBool := [];
    for k := 0 to |ansLines|
      invariant ansEventName == AnswerNames(parsing, ansLines[..k])
      invariant ansEventBool == AnswerStates(ansLines[..k])
    {
      assert ansLines[..k + 1][..k] == ansLines[..k];
      var name, state := ReadLine(parsing, ansLines[k]);
      ansEventName := ansEventName + name;
      ansEventBool := ansEventBool + state;
    }
    assert ansLines[..|ansLines|] == ansLines;
  }

  /** The last loop of validate_cf_tasks: each answered state against the truth of its node. */
  method CompareStates(ansIdx: seq<nat>, ansEventBool: seq<Option<bool>>, gt: seq<bool>) returns (out: Outcome)
    ensures out == CompareFrom(ansIdx, ansEventBool, gt, 0)
  {
    for i := 0 to |ansIdx|
      invariant CompareFrom(ansIdx, ansEventBool, gt, 0) == CompareFrom(ansIdx, ansEventBool, gt, i)
    {
      if i >= |ansEventBool| || ansIdx[i] >= |gt| {
        return RaisesIndexError;
      }
      if ansEventBool[i] != Some(gt[ansIdx[i]]) {
        return Returns(false);
      }
    }
    return Returns(true);
  }

  /** The middle loop of validate_cf_tasks: False at the first query index not answered. */
  method CheckQueries(queryIdx: seq<nat>, ansIdx: seq<nat>) returns (result: bool)
    ensures result <==> QueriesAnswered(queryIdx, ansIdx)
  {
    result := true;
    for j := 0 to |queryIdx|
      invariant forall q :: q in queryIdx[..j] ==> q in ansIdx
    {
      if queryIdx[j] !in ansIdx {
        result := false;
        break;
      }
      assert queryIdx[..j + 1] == queryIdx[..j] + [queryIdx[j]];
    }
    if result {
      assert queryIdx[..|queryIdx|] == queryIdx;
    }
  }

  /** validate_cf_tasks */
  method ValidateCfTasks(parsing: Parsing, names: seq<string>, queryIdx: seq<nat>, gt: seq<bool>, answer: string)
    returns (out: Outcome)
    ensures out == CfTasksOutcome(parsing, names, queryIdx, gt, answer)
  {
    var ansLines := Split(answer, "\n");
    var ansEventName, ansEventBool := CollectAnswers(parsing, ansLines);
    var ansIdx := [];
    var parsed := IndicesOf(names, ansEventName);
    if parsed.Some? {
      ansIdx := parsed.value;
    }
    var result := CheckQueries(queryIdx, ansIdx);
    if result {
      out := CompareStates(ansIdx, ansEventBool, gt);
    } else {
      out := Returns(false);
    }
  }

  /** A queried node that is not among the answered names makes the answer wrong. */
  lemma MissingQueryRejected(parsing: Parsing, names: seq<string>, queryIdx: seq<nat>, gt: seq<bool>, answer: string, q: nat)
    requires q in queryIdx && q !in AnswerIdx(names, AnswerNames(parsing, Split(answer, "\n")))
    ensures CfTasksOutcome(parsing, names, queryIdx, gt, answer) == Returns(false)
  {
  }

  /** Once no index can run out, the loop returns True exactly when every answered state
      equals the ground truth of its node; an unrecognised state (None) never does. */
  lemma {:induction false} CompareFromVerdict(idx: seq<nat>, states: seq<Option<bool>>, gt: seq<bool>, i: nat)
    requires i <= |idx| <= |states| && forall k :: 0 <= k < |idx| ==> idx[k] < |gt|
    ensures CompareFrom(idx, states, gt, i) ==
      Returns(forall k :: i <= k < |idx| ==> states[k] == Some(gt[idx[k]]))
    decreases |idx| - i
  {
    if i < |idx| {
      CompareFromVerdict(idx, states, gt, i + 1);
    }
  }

  /** An answered state that is not a recognised phrase (None) never matches: the comparison
      loop cannot accept once it would reach it. */
  lemma {:induction false} UnrecognisedNeverAccepted(idx: seq<nat>, states: seq<Option<bool>>, gt: seq<bool>, i: nat, k: nat)
    requires i <= k < |idx| && k < |states| && states[k] == None
    ensures CompareFrom(idx, states, gt, i) != Returns(true)
    decreases k - i
  {
    if i < k {
      UnrecognisedNeverAccepted(idx, states, gt, i + 1, k);
    }
  }

  /** Either way of reading the fields, an answer with an unrecognised state for an answered
      node is never accepted. */
  lemma UnrecognisedStateRejected(parsing: Parsing, names: seq<string>, queryIdx: seq<nat>, gt: seq<bool>, answer: string, k: nat)
    requires var lines := Split(answer, "\n");
      k < |AnswerIdx(names, AnswerNames(parsing, lines))| && k < |AnswerStates(lines)| && AnswerStates(lines)[k] == None
    ensures CfTasksOutcome(parsing, names, queryIdx, gt, answer) != Returns(true)
  {
    var lines := Split(answer, "\n");
    UnrecognisedNeverAccepted(AnswerIdx(names, AnswerNames(parsing, lines)), AnswerStates(lines), gt, 0, k);
  }

  lemma {:induction false} PairedAligned(lines: seq<string>)
    ensures |AnswerNames(Paired, lines)| == |AnswerStates(lines)|
  {
    if |lines| > 0 {
      PairedAligned(lines[..|lines| - 1]);
    }
  }

  /** Reading the fields in pairs, the validator never raises (given one truth value per name)
      and accepts exactly the answers that name every queried node and state each named
      node's ground-truth value with a recognised phrase. */
  lemma PairedVerdict(names: seq<string>, queryIdx: seq<nat>, gt: seq<bool>, answer: string)
    requires |names| <= |gt|
    ensures var lines := Split(answer, "\n");
      var idx := AnswerIdx(names, AnswerNames(Paired, lines));
      var states := AnswerStates(lines);
      |idx| <= |states| &&
      CfTasksOutcome(Paired, names, queryIdx, gt, answer) ==
        Returns(QueriesAnswered(queryIdx, idx) &&
                (forall k :: 0 <= k < |idx| ==> states[k] == Some(gt[idx[k]])))
  {
    var lines := Split(answer, "\n");
    var idx := AnswerIdx(names, AnswerNames(Paired, lines));
    PairedAligned(lines);
    CompareFromVerdict(idx, AnswerStates(lines), gt, 0);
  }

  lemma {:induction false} CommasAlign(lines: seq<string>)
    requires forall k :: 0 <= k < |lines| ==> HasState(lines[k])
    ensures AnswerNames(AsWritten, lines) == AnswerNames(Paired, lines)
  {
    if |lines| > 0 {
      var init := lines[..|lines| - 1];
      assert forall k :: 0 <= k < |init| ==> init[k] == lines[k];
      CommasAlign(init);
    }
  }

  /** When every answer line has a comma the code as written agrees with the paired reading. */
  lemma CommasAgree(names: seq<string>, queryIdx: seq<nat>, gt: seq<bool>, answer: string)
    requires forall k :: 0 <= k < |Split(answer, "\n")| ==> HasState(Split(answer, "\n")[k])
    ensures CfTasksOutcome(AsWritten, names, queryIdx, gt, answer) == CfTasksOutcome(Paired, names, queryIdx, gt, answer)
  {
    CommasAlign(Split(answer, "\n"));
  }

  /** The answer "a" reads as the one name "a" with no state. */
  lemma BareNameLines()
    ensures Split("a", "\n") == ["a"]
    ensures AnswerNames(AsWritten, ["a"]) == ["a"] && AnswerNames(Paired, ["a"]) == [] && AnswerStates(["a"]) == []
  {
    SplitWithoutSeparator("a", '\n');
    SplitWithoutSeparator("a", ',');
    assert !HasState("a");
    assert StripRight("a") == "a";
    assert Strip("a") == "a";
    assert Lower("a") == "a";
    assert LineName("a") == "a";
    assert ["a"][..0] == [];
  }

  /** The answer "a" (a node name with no state) to a query about node a: the name is kept,
      no state is, and the comparison loop indexes past the end of the state list. */
  lemma BareNameRaises()
    ensures CfTasksOutcome(AsWritten, ["a"], [0], [true], "a") == RaisesIndexError
  {
    BareNameLines();
    assert IndexOf(["a"], "a") == Some(0);
    assert ["a"][..0] == [];
    assert IndicesOf(["a"], []) == Some([]);
    assert IndicesOf(["a"], ["a"]) == Some([] + [0]);
    assert AnswerIdx(["a"], ["a"]) == [0];
    assert QueriesAnswered([0], [0]);
  }

  /** Read in pairs, the same answer is simply wrong: node a is not answered. */
  lemma BareNamePaired()
    ensures CfTasksOutcome(Paired, ["a"], [0], [true], "a") == Returns(false)
  {
    BareNameLines();
    assert AnswerIdx(["a"], []) == [];
    MissingQueryRejected(Paired, ["a"], [0], [true], "a", 0);
  }
}
