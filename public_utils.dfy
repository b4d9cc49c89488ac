/** Simple-path enumeration by depth-first search, and the variable-name encoders. */
module PublicUtils {
  import opened Common

  // ---------------------------------------------------------------------------
  // Specification of the depth-first search
  // ---------------------------------------------------------------------------

  /** Nodes of the matrix not yet on the current path: the search's termination measure. */
  function Unvisited(path: seq<nat>, n: nat): set<nat> {
    Below(n) - (set x | x in path)
  }

  /** The paths the search appends when it enters `cur` with `path` on the stack:
      reaching `end` records the stack, otherwise every neighbour of `cur`
      not on the stack is explored in ascending index order. */
  function Paths(adj: Matrix, path: seq<nat>, cur: nat, end: nat): seq<seq<nat>>
    requires IsSquare(adj) && AllBelow(path, |adj|) && cur !in path
    requires cur < |adj| || cur == end
    decreases Unvisited(path, |adj|), 0, 0
  {
    if cur == end then [path + [cur]]
    else
      assert cur in Unvisited(path, |adj|) && cur !in Unvisited(path + [cur], |adj|);
      Extend(adj, path + [cur], end, |adj|)
  }

  /** The paths found by exploring neighbours 0 .. k-1 of the last node of `p`. */
  function Extend(adj: Matrix, p: seq<nat>, end: nat, k: nat): seq<seq<nat>>
    requires IsSquare(adj) && |p| > 0 && AllBelow(p, |adj|) && k <= |adj|
    decreases Unvisited(p, |adj|), 1, k
  {
    if k == 0 then []
    else
      Extend(adj, p, end, k - 1) +
      (if adj[p[|p| - 1]][k - 1] != 0 && k - 1 !in p then Paths(adj, p, k - 1, end) else [])
  }

  /** Consecutive nodes of `q` from position `from` on are joined by nonzero entries. */
  ghost predicate WalkFrom(adj: Matrix, q: seq<nat>, from: nat) {
    forall i :: from <= i < |q| - 1 ==> q[i] < |adj| && q[i + 1] < |adj[q[i]]| && adj[q[i]][q[i + 1]] != 0
  }

  /** A simple path from s to e: a walk with no repeated node. */
  ghost predicate IsSimplePath(adj: Matrix, q: seq<nat>, s: nat, e: nat) {
    |q| > 0 && q[0] == s && q[|q| - 1] == e && Distinct(q) && WalkFrom(adj, q, 0)
  }

  /** `q` is one complete search branch entered at `cur` above `path`. */
  ghost predicate Completes(adj: Matrix, path: seq<nat>, cur: nat, end: nat, q: seq<nat>) {
    |q| > |path| && q[..|path|] == path && q[|path|] == cur && Distinct(q) &&
    q[|q| - 1] == end && WalkFrom(adj, q, |path|)
  }

  /** `q` continues `p` through a neighbour below k of p's last node. */
  ghost predicate ExtendsBelow(adj: Matrix, p: seq<nat>, k: nat, end: nat, q: seq<nat>)
    requires |p| > 0
  {
    |q| > |p| && q[..|p|] == p && q[|p|] < k && Distinct(q) &&
    q[|q| - 1] == end && WalkFrom(adj, q, |p| - 1)
  }

  // ---------------------------------------------------------------------------
  // The search itself: a shared path buffer and a list of found paths
  // ---------------------------------------------------------------------------

  class PathFinder {
    const adj: Matrix
    const end: nat
    var path: seq<nat>
    var allPaths: seq<seq<nat>>

    constructor (adj: Matrix, end: nat)
      ensures this.adj == adj && this.end == end
      ensures path == [] && allPaths == []
    {
      this.adj := adj;
      this.end := end;
      path := [];
      allPaths := [];
    }

    /** Push `cur`, record or explore, pop: the buffer is left as it was found. */
    method Dfs(cur: nat)
      requires IsSquare(adj) && AllBelow(path, |adj|) && cur !in path
      requires cur < |adj| || cur == end
      modifies this
      ensures path == old(path)
      ensures allPaths == old(allPaths) + Paths(adj, old(path), cur, end)
      decreases Unvisited(path, |adj|)
    {
      path := path + [cur];
      if cur == end {
        allPaths := allPaths + [path];
      } else {
        ghost var p := path;
        assert AllBelow(p, |adj|);
        assert cur in Unvisited(old(path), |adj|) && cur !in Unvisited(p, |adj|);
        assert Unvisited(p, |adj|) < Unvisited(old(path), |adj|);
        assert |adj[cur]| == |adj|;
        for neighbor := 0 to |adj[cur]|
          invariant path == p
          invariant allPaths == old(allPaths) + Extend(adj, p, end, neighbor)
        {
          ExtendStep(adj, p, end, neighbor);
          ghost var found := allPaths;
          if adj[cur][neighbor] != 0 && neighbor !in path {
            Dfs(neighbor);
            ConcatAssoc(old(allPaths), Extend(adj, p, end, neighbor), Paths(adj, p, neighbor, end));
          } else {
            assert found + [] == found;
          }
        }
      }
      path := path[..|path| - 1];
    }
  }

  lemma ConcatAssoc<T>(a: seq<T>, b: seq<T>, c: seq<T>)
    ensures (a + b) + c == a + (b + c)
  {
  }

  /** Extend over the first k + 1 neighbours is Extend over the first k, then the paths through neighbour k. */
  lemma ExtendStep(adj: Matrix, p: seq<nat>, end: nat, k: nat)
    requires IsSquare(adj) && |p| > 0 && AllBelow(p, |adj|) && k < |adj|
    ensures Extend(adj, p, end, k + 1) ==
      Extend(adj, p, end, k) + (if adj[p[|p| - 1]][k] != 0 && k !in p then Paths(adj, p, k, end) else [])
  {
  }

  /** All simple paths from `start` to `endNode`, in depth-first order. */
  method FindAllPaths(adj: Matrix, start: nat, endNode: nat) returns (allPaths: seq<seq<nat>>)
    requires IsSquare(adj) && (start < |adj| || start == endNode)
    ensures allPaths == Paths(adj, [], start, endNode)
    ensures start == endNode ==> allPaths == [[start]]
  {
    var finder := new PathFinder(adj, endNode);
    finder.Dfs(start);
    allPaths := finder.allPaths;
    assert start == endNode ==> [] + [start] == [start];
  }

  // ---------------------------------------------------------------------------
  // What the search finds: every simple path, exactly once
  // ---------------------------------------------------------------------------

  lemma {:induction false} PathsCount(adj: Matrix, path: seq<nat>, cur: nat, end: nat, q: seq<nat>)
    requires IsSquare(adj) && AllBelow(path, |adj|) && cur !in path && Distinct(path)
    requires cur < |adj| || cur == end
    ensures multiset(Paths(adj, path, cur, end))[q] == if Completes(adj, path, cur, end, q) then 1 else 0
    decreases Unvisited(path, |adj|), 0, 0
  {
    if cur == end {
      PathsCountAtEnd(adj, path, cur, end, q);
    } else {
      var p := path + [cur];
      assert cur in Unvisited(path, |adj|) && cur !in Unvisited(p, |adj|);
      assert AllBelow(p, |adj|);
      assert Distinct(p);
      ExtendCount(adj, p, end, |adj|, q);
      CompletesViaNeighbour(adj, path, cur, end, q);
    }
  }

  /** Entering the end node records exactly the stack plus that node. */
  lemma PathsCountAtEnd(adj: Matrix, path: seq<nat>, cur: nat, end: nat, q: seq<nat>)
    requires IsSquare(adj) && AllBelow(path, |adj|) && cur !in path && Distinct(path)
    requires cur == end
    ensures multiset(Paths(adj, path, cur, end))[q] == if Completes(adj, path, cur, end, q) then 1 else 0
  {
    var r := path + [cur];
    assert Paths(adj, path, cur, end) == [r];
    if Completes(adj, path, cur, end, q) {
      assert q[|path|] == q[|q| - 1];
      assert |q| == |path| + 1;
      assert q == q[..|path|] + [q[|path|]];
    }
    if q == r {
      assert r[..|path|] == path;
      assert Distinct(r);
      assert Completes(adj, path, cur, end, q);
    }
  }

  /** Away from the end node, a completed branch is a continuation through some neighbour. */
  lemma CompletesViaNeighbour(adj: Matrix, path: seq<nat>, cur: nat, end: nat, q: seq<nat>)
    requires IsSquare(adj) && AllBelow(path, |adj|) && cur < |adj| && cur != end
    ensures Completes(adj, path, cur, end, q) <==> ExtendsBelow(adj, path + [cur], |adj|, end, q)
  {
    var p := path + [cur];
    if Completes(adj, path, cur, end, q) {
      assert |q| > |p|;
      assert q[..|p|] == q[..|path|] + [q[|path|]];
      assert q[|path|] < |adj| && q[|p|] < |adj[q[|path|]]|;
      assert ExtendsBelow(adj, p, |adj|, end, q);
    }
    if ExtendsBelow(adj, p, |adj|, end, q) {
      assert q[..|path|] == q[..|p|][..|path|];
      assert q[|path|] == q[..|p|][|path|];
      assert Completes(adj, path, cur, end, q);
    }
  }

  lemma {:induction false} ExtendCount(adj: Matrix, p: seq<nat>, end: nat, k: nat, q: seq<nat>)
    requires IsSquare(adj) && |p| > 0 && AllBelow(p, |adj|) && k <= |adj|
    requires Distinct(p) && p[|p| - 1] != end
    ensures multiset(Extend(adj, p, end, k))[q] == if ExtendsBelow(adj, p, k, end, q) then 1 else 0
    decreases Unvisited(p, |adj|), 1, k
  {
    if k > 0 {
      var last := p[|p| - 1];
      var nb := k - 1;
      ExtendCount(adj, p, end, k - 1, q);
      var older := Extend(adj, p, end, k - 1);
      var branch := if adj[last][nb] != 0 && nb !in p then Paths(adj, p, nb, end) else [];
      assert Extend(adj, p, end, k) == older + branch;
      assert multiset(older + branch)[q] == multiset(older)[q] + multiset(branch)[q];
      var here := |q| > |p| && q[|p|] == nb && ExtendsBelow(adj, p, k, end, q);
      ExtendsBelowStep(adj, p, k, end, q);
      if adj[last][nb] != 0 && nb !in p {
        PathsCount(adj, p, nb, end, q);
        CompletesThrough(adj, p, nb, end, q);
        assert multiset(branch)[q] == if here then 1 else 0;
      } else {
        if here {
          HereNeedsEdge(adj, p, k, end, q);
          assert false;
        }
        assert multiset(branch)[q] == 0;
      }
      CountStep(multiset(Extend(adj, p, end, k))[q], multiset(older)[q], multiset(branch)[q],
        ExtendsBelow(adj, p, k, end, q), ExtendsBelow(adj, p, k - 1, end, q), here);
    }
  }

  /** Counting a sequence in a concatenation of two disjointly specified parts. */
  lemma CountStep(total: int, a: int, b: int, now: bool, before: bool, here: bool)
    requires total == a + b && a == (if before then 1 else 0) && b == (if here then 1 else 0)
    requires (now <==> before || here) && !(before && here)
    ensures total == if now then 1 else 0
  {
  }

  /** A continuation through neighbour k - 1 needs the edge to it, and k - 1 off the stack. */
  lemma HereNeedsEdge(adj: Matrix, p: seq<nat>, k: nat, end: nat, q: seq<nat>)
    requires IsSquare(adj) && |p| > 0 && AllBelow(p, |adj|) && 0 < k <= |adj|
    requires |q| > |p| && q[|p|] == k - 1 && ExtendsBelow(adj, p, k, end, q)
    ensures adj[p[|p| - 1]][k - 1] != 0 && k - 1 !in p
  {
    assert q[|p| - 1] == p[|p| - 1] by { assert q[..|p|][|p| - 1] == q[|p| - 1]; }
    forall i | 0 <= i < |p| ensures p[i] != k - 1 {
      assert q[i] == q[..|p|][i];
    }
  }

  /** Raising the neighbour bound by one admits exactly the branches through neighbour k - 1. */
  lemma ExtendsBelowStep(adj: Matrix, p: seq<nat>, k: nat, end: nat, q: seq<nat>)
    requires |p| > 0 && k > 0
    ensures var here := |q| > |p| && q[|p|] == k - 1 && ExtendsBelow(adj, p, k, end, q);
      (ExtendsBelow(adj, p, k, end, q) <==> ExtendsBelow(adj, p, k - 1, end, q) || here) &&
      (here ==> !ExtendsBelow(adj, p, k - 1, end, q))
  {
  }

  /** A branch entered at neighbour nb of p's last node is a continuation of p through nb. */
  lemma CompletesThrough(adj: Matrix, p: seq<nat>, nb: nat, end: nat, q: seq<nat>)
    requires IsSquare(adj) && |p| > 0 && AllBelow(p, |adj|) && nb < |adj| && adj[p[|p| - 1]][nb] != 0
    ensures Completes(adj, p, nb, end, q) <==>
      |q| > |p| && q[|p|] == nb && ExtendsBelow(adj, p, nb + 1, end, q)
  {
    if Completes(adj, p, nb, end, q) {
      assert q[|p| - 1] == p[|p| - 1] by { assert q[..|p|][|p| - 1] == q[|p| - 1]; }
    }
  }

  /** Completeness and uniqueness: a sequence occurs in the search result
      exactly once if it is a simple path from `start` to `endNode`, and never otherwise. */
  lemma FindAllPathsExact(adj: Matrix, start: nat, endNode: nat, q: seq<nat>)
    requires IsSquare(adj) && (start < |adj| || start == endNode)
    ensures multiset(Paths(adj, [], start, endNode))[q] == if IsSimplePath(adj, q, start, endNode) then 1 else 0
  {
    PathsCount(adj, [], start, endNode, q);
    assert Completes(adj, [], start, endNode, q) <==> IsSimplePath(adj, q, start, endNode) by {
      if |q| > 0 { assert q[..0] == []; }
    }
  }

  /** Soundness: every reported path is a simple path of the matrix, and it has at most n nodes. */
  lemma FindAllPathsSound(adj: Matrix, start: nat, endNode: nat, q: seq<nat>)
    requires IsSquare(adj) && start < |adj|
    requires q in Paths(adj, [], start, endNode)
    ensures IsSimplePath(adj, q, start, endNode)
    ensures |q| <= |adj|
  {
    FindAllPathsExact(adj, start, endNode, q);
    assert multiset(Paths(adj, [], start, endNode))[q] > 0;
    assert AllBelow(q, |adj|) by {
      forall i | 0 <= i < |q| ensures q[i] < |adj| {
        if i < |q| - 1 {
          assert q[i] < |adj|;
        } else if i > 0 {
          assert q[i - 1] < |adj| && |adj[q[i - 1]]| == |adj|;
        }
      }
    }
    DistinctBelowLength(q, |adj|);
  }

  /** No simple path means an empty result, not an error. */
  lemma FindAllPathsNone(adj: Matrix, start: nat, endNode: nat)
    requires IsSquare(adj) && (start < |adj| || start == endNode)
    requires forall q :: !IsSimplePath(adj, q, start, endNode)
    ensures Paths(adj, [], start, endNode) == []
  {
    var r := Paths(adj, [], start, endNode);
    if r != [] {
      FindAllPathsExact(adj, start, endNode, r[0]);
    }
  }

  // ---------------------------------------------------------------------------
  // Variable-name encoders
  // ---------------------------------------------------------------------------

  /** Python chr(97 + d) for a digit d: one of 'a' .. 'j'. */
  function DigitLetter(d: int): (c: char)
    requires 0 <= d < 10
    ensures 'a' <= c <= 'j' && c as int - 97 == d
  {
    (97 + d) as char
  }

  /** The leading letter chr(97 + q), which Python refuses (ValueError) for a negative code point. */
  function LeadLetter(q: int): (c: Option<char>)
    requires q + 97 < 0xD800
    ensures c.None? <==> q + 97 < 0
    ensures c.Some? ==> c.value as int == q + 97
  {
    if q + 97 < 0 then None else Some((q + 97) as char)
  }

  /** Python's int2str: "var_" and five letters, the first one chr(97 + n // 10000).
      Floor division and modulo by a positive divisor coincide in Python and Dafny. */
  function Int2Str(n: int): (r: Option<string>)
    requires n / 10000 + 97 < 0xD800
    ensures r.None? <==> n / 10000 + 97 < 0
    ensures r.Some? ==> |r.value| == 9 && r.value[..4] == "var_"
  {
    match LeadLetter(n / 10000)
    case None => None
    case Some(lead) =>
      Some("var_" + [lead, DigitLetter((n % 10000) / 1000), DigitLetter((n % 1000) / 100),
                     DigitLetter((n % 100) / 10), DigitLetter(n % 10)])
  }

  /** Python's int2str_plain: three letters, the first one chr(97 + n // 100). */
  function Int2StrPlain(n: int): (r: Option<string>)
    requires n / 100 + 97 < 0xD800
    ensures r.None? <==> n / 100 + 97 < 0
    ensures r.Some? ==> |r.value| == 3
  {
    match LeadLetter(n / 100)
    case None => None
    case Some(lead) => Some([lead, DigitLetter((n % 100) / 10), DigitLetter(n % 10)])
  }

  /** Reads letters 'a' .. 'j' as decimal digits, most significant first. */
  function LettersValue(s: string): int {
    if |s| == 0 then 0 else LettersValue(s[..|s| - 1]) * 10 + (s[|s| - 1] as int - 97)
  }

  lemma LettersValueSnoc(s: string, c: char)
    ensures LettersValue(s + [c]) == LettersValue(s) * 10 + (c as int - 97)
  {
    assert (s + [c])[..|s|] == s;
  }

  /** Inverse of Int2Str on identifiers of the form "var_" and five letters a .. j. */
  function DecodeVarName(s: string): (r: Option<int>) {
    if |s| == 9 && s[..4] == "var_" && forall i :: 4 <= i < 9 ==> 'a' <= s[i] <= 'j'
    then Some(LettersValue(s[4..]))
    else None
  }

  lemma Int2StrLetters(n: int)
    requires 0 <= n < 100000
    ensures Int2Str(n).Some?
    ensures forall i :: 4 <= i < 9 ==> 'a' <= Int2Str(n).value[i] <= 'j'
  {
  }

  /** For 0 <= n < 100000 the name is "var_" and the five decimal digits of n as letters,
      and decoding it gives n back. */
  lemma {:induction false} Int2StrRoundTrip(n: int)
    requires 0 <= n < 100000
    ensures Int2Str(n).Some? && DecodeVarName(Int2Str(n).value) == Some(n)
  {
    var a, b, c, d, e := n / 10000, (n % 10000) / 1000, (n % 1000) / 100, (n % 100) / 10, n % 10;
    var s := Int2Str(n).value;
    Int2StrLetters(n);
    var t := s[4..];
    assert t == [] + [t[0]] + [t[1]] + [t[2]] + [t[3]] + [t[4]];
    LettersValueSnoc([], t[0]);
    LettersValueSnoc([t[0]], t[1]);
    LettersValueSnoc([t[0]] + [t[1]], t[2]);
    LettersValueSnoc([t[0]] + [t[1]] + [t[2]], t[3]);
    LettersValueSnoc([t[0]] + [t[1]] + [t[2]] + [t[3]], t[4]);
    assert [] + [t[0]] == [t[0]];
    DecimalSplit(n);
  }

  lemma DecimalSplit(n: int)
    requires 0 <= n < 100000
    ensures (((n / 10000 * 10 + (n % 10000) / 1000) * 10 + (n % 1000) / 100) * 10 + (n % 100) / 10) * 10 + n % 10 == n
  {
    assert n % 10000 == (n % 10000) / 1000 * 1000 + n % 1000;
    assert n % 1000 == (n % 1000) / 100 * 100 + n % 100;
    assert n % 100 == (n % 100) / 10 * 10 + n % 10;
  }

  /** Different node indices below 100000 get different names. */
  lemma Int2StrInjective(m: int, n: int)
    requires 0 <= m < 100000 && 0 <= n < 100000 && m != n
    ensures Int2Str(m) != Int2Str(n)
  {
    Int2StrRoundTrip(m);
    Int2StrRoundTrip(n);
  }

  /** For 0 <= n < 1000 the plain name is the three decimal digits of n as letters. */
  lemma {:induction false} Int2StrPlainRoundTrip(n: int)
    requires 0 <= n < 1000
    ensures Int2StrPlain(n).Some?
    ensures forall i :: 0 <= i < 3 ==> 'a' <= Int2StrPlain(n).value[i] <= 'j'
    ensures LettersValue(Int2StrPlain(n).value) == n
  {
    var t := Int2StrPlain(n).value;
    assert t == [] + [t[0]] + [t[1]] + [t[2]];
    LettersValueSnoc([], t[0]);
    LettersValueSnoc([t[0]], t[1]);
    LettersValueSnoc([t[0]] + [t[1]], t[2]);
    assert [] + [t[0]] == [t[0]];
    assert n % 100 == (n % 100) / 10 * 10 + n % 10;
  }

  lemma Int2StrPlainInjective(m: int, n: int)
    requires 0 <= m < 1000 && 0 <= n < 1000 && m != n
    ensures Int2StrPlain(m) != Int2StrPlain(n)
  {
    Int2StrPlainRoundTrip(m);
    Int2StrPlainRoundTrip(n);
  }

  /** Python's int2two_char_str: the zero-padded two-digit decimal, ValueError (None) otherwise. */
  function Int2TwoCharStr(n: int): (r: Option<string>)
    ensures r.Some? <==> 0 <= n < 100
    ensures r.Some? ==> |r.value| == 2 && forall i :: 0 <= i < 2 ==> '0' <= r.value[i] <= '9'
  {
    if 0 <= n < 10 then Some("0" + [(48 + n) as char])
    else if 10 <= n < 100 then Some([(48 + n / 10) as char, (48 + n % 10) as char])
    else None
  }

  /** Reads a two-character decimal string. */
  function ParseTwoDigits(s: string): int
    requires |s| == 2
  {
    (s[0] as int - 48) * 10 + (s[1] as int - 48)
  }

  lemma Int2TwoCharStrRoundTrip(n: int)
    requires 0 <= n < 100
    ensures ParseTwoDigits(Int2TwoCharStr(n).value) == n
  {
  }
}
