# RGCI core, modelled in Dafny

RGCI builds causal-reasoning benchmarks for language models. The pieces modelled here are these:

- **Graph generation.** `dag_gen` builds a random tiered DAG, one sweep of motif choices at a time. Each choice adds a chain, a fork or a collider whose edges run from an earlier tier to a later one. `graph_complexity_count` then summarises the DAG by degree counts.
- **Path search.** `find_all_paths` enumerates simple paths by depth-first search.
- **Query generation.**
  - Confounding queries (`conf_qa_gen`) pick a cause tier and an effect tier by relative distance. Each cause/effect pair gets its directed paths and its noncausal (undirected but not directed) paths.
  - Counterfactual queries (`get_node_opts`, `cf_bool_assign`, `cf_qa_gen`) give every non-root node a boolean equation over its parents. They evaluate all nodes once as observed, then once after negating a sample of "what-if" nodes and cutting their incoming edges.
- **Answer grading.** The evaluator checks a model's answer:
  - does a control set block every backdoor path (`validate_conf_ctrl`)?
  - are the listed causal paths exactly the true ones (`validate_ce_path`)?
  - are the stated event outcomes the true assignment (`validate_cf_tasks`)?
- **Query filtering.** The test driver filters query ids (`query_filter`).

Files:

| file | module | models |
|---|---|---|
| common.dfy | Common | Option, matrices as `seq<seq<int>>`, ranges, distinctness |
| public_utils.dfy | PublicUtils | `find_all_paths` (a `PathFinder` class with the shared path buffer), `int2str`, `int2str_plain`, `int2two_char_str` |
| graph_utils.dfy | GraphUtils | `dag_gen` on an `array2`, with the random draws as inputs; `graph_complexity_count` |
| conf_utils.dfy | ConfUtils | `conf_qa_gen`: tier selection with Python's round-half-even, directed and noncausal paths |
| cf_utils.dfy | CfUtils | `get_node_opts`, `cf_bool_assign` (the equations evaluated directly), `cf_qa_gen` |
| eval_utils.dfy | EvalUtils | `validate_conf_ctrl`, `validate_ce_path`, `validate_cf_tasks`, and the Python string built-ins they use |
| test_utils.dfy | TestUtils | `query_filter` |

How the state is represented:
- Loops and in-place updates are imperative Dafny methods. Each is proved against a specification function.
- Randomness is an input. Draws for `dag_gen`, the operator draws for `get_node_opts`, and the positions for `random.sample` are supplied by the caller. Predicates state the ranges those draws come from.
- Exceptions become values: `Option` for ValueError/IndexError, and `Outcome.RaisesIndexError` for the uncaught IndexError in `validate_cf_tasks`.
- Two pieces of behaviour are switched by a parameter:
  - `Probe` (position or node) selects the membership test of `validate_ctrl_set`;
  - `Parsing` (as written or paired) selects how `validate_cf_tasks` collects its fields.

  The code's own behaviour is `ByPosition` and `AsWritten`. The other values exist for the findings below.
- `cf_bool_assign`'s equations are Python expressions, so `and` binds tighter than `or`. CfUtils.PrecedenceMatters contrasts this with a left-to-right reading.

## Model

| member | source | states |
|---|---|---|
| PublicUtils.PathFinder.Dfs | src/utils/public_utils.py:23-31 | the path buffer is restored after the call, and the found list grows by exactly the specification's paths for this branch, in depth-first order |
| PublicUtils.FindAllPaths | src/utils/public_utils.py:22-36 | the result is the depth-first enumeration from `start`; when start equals the end node it is the single path [start] |
| PublicUtils.PathsCount | src/utils/public_utils.py:23-31 | a branch entered at `cur` records a sequence once if it completes the branch, and otherwise not at all |
| PublicUtils.ExtendCount | src/utils/public_utils.py:28-30 | exploring the first k neighbours records a sequence once exactly when it continues the path through one of them |
| PublicUtils.FindAllPathsExact | src/utils/public_utils.py:22-36 | every simple path from start to end occurs exactly once in the result, and nothing else occurs |
| PublicUtils.FindAllPathsSound | src/utils/public_utils.py:22-36 | every reported path is a simple path along nonzero entries, with at most n nodes |
| PublicUtils.FindAllPathsNone | src/utils/public_utils.py:33-36 | with no simple path the result is the empty list |
| PublicUtils.CompletesViaNeighbour | src/utils/public_utils.py:25-30 | away from the end node, a completed branch is exactly a continuation through some neighbour |
| PublicUtils.Int2Str | src/utils/public_utils.py:39-47 | None exactly when chr raises on a negative code point; otherwise nine characters starting with "var_" |
| PublicUtils.Int2StrRoundTrip | src/utils/public_utils.py:39-47 | for 0 <= n < 100000 the name decodes back to n |
| PublicUtils.Int2StrInjective | src/utils/public_utils.py:39-47 | distinct indices below 100000 get distinct names |
| PublicUtils.Int2StrPlain | src/utils/public_utils.py:50-55 | None exactly when chr raises; otherwise three characters |
| PublicUtils.Int2StrPlainRoundTrip | src/utils/public_utils.py:50-55 | for 0 <= n < 1000 the three letters are a..j and read back as n |
| PublicUtils.Int2StrPlainInjective | src/utils/public_utils.py:50-55 | distinct indices below 1000 get distinct plain names |
| PublicUtils.Int2TwoCharStr | src/utils/public_utils.py:102-110 | defined exactly for 0 <= n < 100 (ValueError otherwise), as two decimal digits |
| PublicUtils.Int2TwoCharStrRoundTrip | src/utils/public_utils.py:102-110 | the two digits read back as n |
| GraphUtils.BuildTiers | src/core/graph_utils.py:23-31 | node_list is 0..N-1, and tier t is the index range from the sizes summed before t to that sum plus shape[t] |
| GraphUtils.TiersInOrder | src/core/graph_utils.py:25-31 | the tiers, concatenated, list every node once in ascending order |
| GraphUtils.TierOf | src/core/graph_utils.py:29-31 | every node lies in some tier's index range |
| GraphUtils.TierOfUnique | src/core/graph_utils.py:29-31 | that tier is unique: the tiers partition the nodes |
| GraphUtils.TierOrder | src/core/graph_utils.py:29-31 | a node of an earlier tier has a smaller index |
| GraphUtils.VisitEdgesForward | src/core/graph_utils.py:38-75 | a visit writes at most two edges, none for an idle draw, a fork in the last tier or a collider in the first; each edge goes from an earlier tier to a later one |
| GraphUtils.VisitNode | src/core/graph_utils.py:37-75 | one loop body sets exactly the cells of the chain/fork/collider branch the draw selects |
| GraphUtils.VisitTierNodes | src/core/graph_utils.py:36-75 | the innermost loop visits the nodes of tier t in ascending order |
| GraphUtils.SweepNodes | src/core/graph_utils.py:35-75 | one iteration sweeps all tiers in order |
| GraphUtils.DagGen | src/core/graph_utils.py:22-80 | returns the tiers as above, the matrix of the specification after the given sweeps, and that matrix's complexity; the matrix is tier-forward, strictly upper-triangular and acyclic |
| GraphUtils.DagMatrixForward | src/core/graph_utils.py:34-75 | every generated matrix has 0/1 entries and only tier-forward edges, so it is strictly upper-triangular and has no directed cycle |
| GraphUtils.UpperIsAcyclic | src/core/graph_utils.py:22-80 | along any walk of a strictly upper-triangular matrix the index increases, so no walk returns to its start |
| GraphUtils.VisitGrows | src/core/graph_utils.py:44-75 | a visit only sets cells to 1, and only at the at most two edges it writes |
| GraphUtils.EdgesPersist | src/core/graph_utils.py:34-75 | a later sweep keeps every edge of the earlier ones |
| GraphUtils.ComplexityCount | src/core/graph_utils.py:6-19 | node_n, the in-degree total and the chain, fork and collider counts (sums of in*out, C(out,2) and C(in,2)) of the matrix |
| GraphUtils.ColumnSums | src/core/graph_utils.py:9 | entry k is the in-degree of node k |
| GraphUtils.RowSums | src/core/graph_utils.py:10 | entry k is the out-degree of node k |
| GraphUtils.NoIterations | src/core/graph_utils.py:22-80 | with iter_n = 0 the matrix is all zeros and the complexity is [N, 0, 0, 0, 0] |
| GraphUtils.DegreeTotalsAgree | src/core/graph_utils.py:9-11 | the in-degree total (the numerator of indegree_avg) equals the out-degree total |
| ConfUtils.RoundHalfEven | conf_utils.py:59 | Python's round: within 1/2 of x, and even on a tie |
| ConfUtils.RoundUnique | conf_utils.py:59 | an integer with those two properties is the rounded value |
| ConfUtils.PyIndex | conf_utils.py:60-64 | Python indexing with negative indices, defined exactly for -len <= i < len |
| ConfUtils.SelectAtFullDistance | conf_utils.py:58-64 | ce_d = 1 selects the second tier as cause and the last but one as effect |
| ConfUtils.SelectInUnitRange | conf_utils.py:58-64 | for ce_d in (0, 1] the offset lies in [0, max_d/2], so the effect tier is node_tier[-2-offset] |
| ConfUtils.SelectCrossesOver | conf_utils.py:58-64 | with four tiers and ce_d = 1/4 the cause tier comes after the effect tier |
| ConfUtils.SelectAtZeroDistance | conf_utils.py:58-64 | with five tiers and ce_d = 0 the branch taking the tier after the cause tier is reached |
| ConfUtils.SymmetrizeShape | conf_utils.py:69 | the undirected matrix is symmetric, and 0/1 when the DAG is 0/1 and upper-triangular |
| ConfUtils.DirectedIsUndirected | conf_utils.py:69-74 | every directed simple path is an undirected one |
| ConfUtils.Without | conf_utils.py:75-78 | the kept paths as a multiset: those of the undirected list that are not directed paths |
| ConfUtils.Noncausal | conf_utils.py:75-79 | the filtering loop computes exactly that list |
| ConfUtils.PairPartition | conf_utils.py:70-79 | for each pair, each undirected simple path is counted once in either the causal or the noncausal list, never both |
| ConfUtils.ConfQaGen | conf_utils.py:56-83 | None exactly where a tier index raises; otherwise the selected lists plus one directed-path entry and one noncausal entry per (cause, effect) pair, in loop order |
| ConfUtils.ConfQaPartition | conf_utils.py:67-83 | every entry of a generated query splits the undirected simple paths between its causal and noncausal lists |
| CfUtils.Parents | src/core/cf_utils.py:144-145 | the parents of node i below a bound, each with an edge into i, in ascending order |
| CfUtils.ParentsComplete | src/core/cf_utils.py:144-145 | every k below the bound with adj[k][i] == 1 is listed |
| CfUtils.InDegreeCountsParents | src/core/cf_utils.py:98 | on a 0/1 matrix the in-degree is the number of parents |
| CfUtils.Interleave | src/core/cf_utils.py:111-113 | the edge operators land at even positions and the combine operators at odd ones |
| CfUtils.GetNodeOpts | src/core/cf_utils.py:85-116 | root nodes get [-1]; other nodes get their d literal draws interleaved with their d-1 combine draws, which is a well-formed operator list |
| CfUtils.PyValue | src/core/cf_utils.py:142-169 | the value of the generated equation under Python precedence (not over and over or) |
| CfUtils.PrecedenceMatters | src/core/cf_utils.py:148-157 | "x or y and z" with x, y true and z false is True under Python precedence; a left-to-right reading gives False |
| CfUtils.NodeValue | src/core/cf_utils.py:142-158 | the parent scan with its operator cursor computes PyValue of the node's equation |
| CfUtils.CfBoolAssign | src/core/cf_utils.py:119-172 | the returned values are the assignment that solves the equations in node order |
| CfUtils.AssignmentSolves | src/core/cf_utils.py:127-160 | a root is True (or the negated fact if it is a what-if node), and every other node is its equation over its parents' values |
| CfUtils.FactualRootsTrue | src/core/cf_utils.py:128-131 | without an intervention every root is True |
| CfUtils.ZeroOutColumns | src/core/cf_utils.py:198-200 | the in-place column clearing leaves exactly that matrix |
| CfUtils.CopyMatrix | src/core/cf_utils.py:198 | the copy is a fresh array with the same contents |
| CfUtils.InterventionInputs | src/core/cf_utils.py:198-203 | after cutting, the what-if nodes are roots, and the cut matrix is a valid counterfactual input |
| CfUtils.InterventionFlips | src/core/cf_utils.py:133-136 | every what-if node takes the negation of its factual value |
| CfUtils.UntaintedAgree | src/core/cf_utils.py:202-203 | a node that is neither a what-if node nor has one as an ancestor keeps its factual value |
| CfUtils.NoIntervention | src/core/cf_utils.py:202-203 | with no what-if node the two passes give the same assignment |
| CfUtils.Roots | src/core/cf_utils.py:176-180 | the clue is exactly the nodes of in-degree 0, ascending |
| CfUtils.ObservedNodes | src/core/cf_utils.py:176-180 | the observed-node loop computes that list |
| CfUtils.NonRoots | src/core/cf_utils.py:181-184 | the query nodes are exactly the last-tier nodes with nonzero in-degree |
| CfUtils.LastTierQuery | src/core/cf_utils.py:181-184 | the query-node loop computes that list |
| CfUtils.NotInMembers | src/core/cf_utils.py:185-189 | the candidates are exactly the tier nodes that are not query nodes |
| CfUtils.CollectCandidates | src/core/cf_utils.py:185-189 | the candidate loop computes that list, tier by tier |
| CfUtils.SampleSize | src/core/cf_utils.py:193-196 | the sample size is whatif_n, capped at the number of candidates |
| CfUtils.Sample | src/core/cf_utils.py:194-196 | the sample draws its members from the population, and they are distinct when both the population and the picks are |
| CfUtils.FactualAndCounterfactual | src/core/cf_utils.py:198-203 | f_assign is the factual assignment; cf_assign is the one over the cut matrix with the what-if nodes negated |
| CfUtils.CfQaGen | src/core/cf_utils.py:175-208 | None on an empty tier list or a negative whatif_n; otherwise the clue, the query, the what-if sample of non-query nodes, well-formed operator lists and both assignments |
| CfUtils.CfQaIntervention | src/core/cf_utils.py:175-208 | in every generated query the what-if nodes are flipped and the nodes with no what-if ancestor are unchanged |
| EvalUtils.Split | src/evaluation/eval_utils.py:109 | str.split always gives at least one piece |
| EvalUtils.JoinSplit | src/evaluation/eval_utils.py:109 | joining the pieces with the separator gives the string back |
| EvalUtils.SplitPiecesAvoidSeparator | src/evaluation/eval_utils.py:109 | with a one-character separator no piece contains it; with JoinSplit this pins the pieces down as the separator-free runs |
| EvalUtils.SplitWithoutSeparator | src/evaluation/eval_utils.py:142-147 | a string without the separator splits into itself |
| EvalUtils.StripLeft | src/evaluation/eval_utils.py:109 | a suffix not starting with whitespace, with only whitespace removed |
| EvalUtils.StripRight | src/evaluation/eval_utils.py:109 | a prefix not ending with whitespace, with only whitespace removed |
| EvalUtils.StripIdempotent | src/evaluation/eval_utils.py:109 | a stripped string has no whitespace at either end, and stripping again changes nothing |
| EvalUtils.IndexOf | src/evaluation/eval_utils.py:110 | list.index: the first position holding x, or None (ValueError) exactly when x is absent |
| EvalUtils.IndicesOf | src/evaluation/eval_utils.py:110 | all names found, with each index naming its factor, or None exactly when some factor is not a name |
| EvalUtils.PathBlocked | src/evaluation/eval_utils.py:92-102 | the interior scan finds a blocking position exactly when one exists (a collider outside the set, or a non-collider inside it) |
| EvalUtils.ValidateCtrlSet | src/evaluation/eval_utils.py:89-105 | True exactly when every noncausal path of every pair is blocked |
| EvalUtils.ValidateConfCtrl | src/evaluation/eval_utils.py:88-115 | True exactly when the parsed control set blocks every noncausal path, with the membership test on positions |
| EvalUtils.NoPathsAcceptsAll | src/evaluation/eval_utils.py:89-113 | with no noncausal path every answer is accepted |
| EvalUtils.DirectPathRejectsAll | src/evaluation/eval_utils.py:93-104 | a noncausal path with no interior node rejects every control set |
| EvalUtils.UnknownNameEmptiesCtrl | src/evaluation/eval_utils.py:107-112 | one factor that is not a node name leaves the control set empty |
| EvalUtils.EmptyCtrlNeedsCollider | src/evaluation/eval_utils.py:93-102 | the empty set blocks a path exactly when the path has an interior collider |
| EvalUtils.PositionNotNode | src/evaluation/eval_utils.py:94-102 | on the fork 0 <- 2 -> 1, controlling node 2 is rejected and position 1 accepted; testing nodes gives the opposite |
| EvalUtils.PositionDependsOnDirection | src/evaluation/eval_utils.py:93-102 | as written, the same path read from its two ends gets different verdicts |
| EvalUtils.NodeTestIgnoresDirection | src/evaluation/eval_utils.py:93-102 | with the node test, the verdict on a path does not depend on its direction |
| EvalUtils.ParsedPaths | src/evaluation/eval_utils.py:119-125 | at most one parsed path per answer line |
| EvalUtils.ParseAnswerPaths | src/evaluation/eval_utils.py:119-125 | the first loop keeps the lines that parse, in order, as index paths |
| EvalUtils.FlattenTruth | src/evaluation/eval_utils.py:127-130 | the second loop lists the ground-truth paths of all pairs one after the other |
| EvalUtils.ValidateCePath | src/evaluation/eval_utils.py:118-136 | True exactly when the parsed answer paths and the ground-truth paths are equal as multisets |
| EvalUtils.ParsedConcat | src/evaluation/eval_utils.py:121-125 | lines are parsed independently: parsing a concatenation concatenates the results |
| EvalUtils.LineOrderIrrelevant | src/evaluation/eval_utils.py:119-131 | rearranged lines parse to the same multiset of paths |
| EvalUtils.AnswerOrderIrrelevant | src/evaluation/eval_utils.py:118-136 | reordering the lines of an answer does not change the verdict |
| EvalUtils.UnparsableDropped | src/evaluation/eval_utils.py:122-125 | lines that do not parse contribute nothing, so such an answer is accepted exactly when there is no causal path |
| EvalUtils.StateOf | src/evaluation/eval_utils.py:140-152 | True for the two "happened" phrases, False for the three "not happen" phrases, None otherwise |
| EvalUtils.ReadLine | src/evaluation/eval_utils.py:145-154 | one line contributes its name (as written, before the state field is read) and its state when there is a second field |
| EvalUtils.CollectAnswers | src/evaluation/eval_utils.py:142-154 | the first loop builds the name and state lists of the specification |
| EvalUtils.CheckQueries | src/evaluation/eval_utils.py:161-165 | True exactly when every query index is among the answered ones |
| EvalUtils.CompareStates | src/evaluation/eval_utils.py:166-170 | the comparison loop: False at the first mismatch, IndexError at the first missing state or out-of-range name |
| EvalUtils.ValidateCfTasks | src/evaluation/eval_utils.py:139-172 | the outcome is the specification's: False on an unanswered query, otherwise the comparison loop's outcome |
| EvalUtils.MissingQueryRejected | src/evaluation/eval_utils.py:162-165 | a queried node missing from the answer makes it wrong |
| EvalUtils.CompareFromVerdict | src/evaluation/eval_utils.py:166-170 | when no index can run out, the loop accepts exactly when every answered state equals the truth of its node |
| EvalUtils.UnrecognisedNeverAccepted | src/evaluation/eval_utils.py:152-168 | an unrecognised state (None) never matches, so the loop cannot accept |
| EvalUtils.UnrecognisedStateRejected | src/evaluation/eval_utils.py:152-170 | an answer with an unrecognised state for an answered node is never accepted |
| EvalUtils.PairedAligned | src/evaluation/eval_utils.py:144-154 | pairing the fields keeps exactly one state per name |
| EvalUtils.PairedVerdict | src/evaluation/eval_utils.py:139-172 | paired, the validator never raises and accepts exactly the answers covering every query with the true state of each answered node |
| EvalUtils.CommasAgree | src/evaluation/eval_utils.py:144-154 | when every line has a comma, the code as written and the paired reading agree |
| EvalUtils.BareNameRaises | src/evaluation/eval_utils.py:146-168 | the answer "a" to a query about node a raises IndexError as written |
| EvalUtils.BareNamePaired | src/evaluation/eval_utils.py:146-165 | read in pairs, the same answer is simply wrong |
| TestUtils.Slice | src/tests/test_utils.py:19-33 | Python slicing clamps the ends: the exact slice when the string is long enough, empty when it is too short |
| TestUtils.QueryFilter | src/tests/test_utils.py:18-34 | False exactly when a present filter misses its two-character part, or the eight-character graph id is in the history |
| TestUtils.NoFiltersKeepAll | src/tests/test_utils.py:18-34 | with no filter and an empty history every query is kept |
| TestUtils.HistoryRejectsGraph | src/tests/test_utils.py:31-33 | recording a graph id rejects every query of that graph and changes no other verdict |
| TestUtils.WiderFilterKeepsMore | src/tests/test_utils.py:19-21 | adding codes to the shape filter, or dropping it, only admits more queries |

## Left out

- I/O: `draw_graph`, pickling of queries and graphs, the prompt templates (`dict2text`, `get_conf_prompt`, `get_cf_prompt`), `eval_llm`'s file handling, and its "net_err"/"unknown" pre-checks. None of these computes anything the validators depend on.
- `random_str_gen`, `node_name_gen`, `node_name_gen_specific` and `get_size` are not part of this model.
- The generated code strings of `cf_bool_assign` (`py_code`, `bool_expr`) and the `exec` call are left out. The model evaluates the same equations directly, with Python precedence.
- Randomness is modelled as caller-supplied draws:
  - `random.uniform` becomes a motif choice;
  - `random.sample` becomes sampled tiers and positions;
  - `np.random.randint` becomes operator lists.

  The model does not capture the distributions.
- Floating point is not modelled: the motif thresholds `p`, `indegree_avg` (only its numerator is modelled), and `max_d/2*(1-ce_d)`. ce_d is an exact rational, so rounding of binary floats is not modelled.
- Python `str.lower()` is modelled on ASCII letters only. Unicode case mapping is left out.
- `query_filter` assumes its filters are lists of strings, as the settings supply them. A plain string as a filter would make `in` a substring test, which is not modelled.
- GraphUtils.DagGen: requires at least three tiers, none of them empty, as the comment at src/core/graph_utils.py:27 asks and every configured shape satisfies (config/settings.py:51-73). On other shapes the code may raise ValueError from `random.sample`, which is not modelled. It raises only when a draw samples an empty tier, or asks for two tiers out of a range of one.
- CfUtils.CfBoolAssign: requires a 0/1, strictly upper-triangular matrix and well-formed operator lists, as `dag_gen` and `get_node_opts` produce them. On other inputs the generated code may refer to a variable before it is defined, and that NameError is not modelled.
- PublicUtils.Int2Str, PublicUtils.Int2StrPlain: the domain stops below the surrogate range 0xD800, because Dafny's `char` has no surrogate code points. Python's `chr` also accepts 0xD800..0x10FFFF, and raises ValueError above 0x10FFFF; neither is modelled. Every caller passes a node index, which stays far below that range.
- EvalUtils.ValidateCtrlSet: requires every path node to be a node of the matrix. The paths come from the same graph; an out-of-range node would raise.
- EvalUtils.ValidateCePath: `sorted(a) == sorted(b)` is modelled as multiset equality. For lists of integer lists, which Python orders totally, the two coincide.
- `validate_cf_tasks` compares against `gt_assign`, which the model takes as a list of booleans (`f_assign`/`cf_assign`).

## Findings

| source | as written | input that shows it | evidently intended | confidence | as-written member | corrected member |
|---|---|---|---|---|---|---|
| src/evaluation/eval_utils.py:94-102 | the control-set membership test looks up the path position `n_idx`, while `ctrl_set_idx` holds node indices | fork 0 <- 2 -> 1 with noncausal path [0, 2, 1]: controlling node 2 is rejected, and "controlling" node 1 (the effect) is accepted | test the node `p[n_idx]`, so that blocking is a property of the path whichever end it is read from | high, not executed | EvalUtils.PositionNotNode | EvalUtils.NodeTestIgnoresDirection |
| src/evaluation/eval_utils.py:146-168 | the name is appended before the state field is read, so a line without a comma leaves a name with no state; the comparison loop then indexes past the state list and the IndexError is not caught | names ["a"], query [0], truth [true], answer "a" | a line contributes its name and state together or not at all; the answer is then simply wrong, and no answer makes the validator raise | high, not executed | EvalUtils.BareNameRaises | EvalUtils.PairedVerdict |
