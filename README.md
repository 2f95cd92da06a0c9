# Grid pairing game — a Dafny model

The game is played on an n × m grid of coloured, valued cells. The player pairs neighbouring cells
whose colours are compatible. A pair costs the difference of its two values, and every cell left
unpaired (black cells aside) costs its value. The lowest score wins.

The repository has several solvers:

- two greedy heuristics;
- a Ford–Fulkerson bipartite matcher that edits its graph in place;
- an Edmonds–Karp variant that works on a residual copy;
- a hand-written Hungarian matcher;
- the blossom algorithm of `max_weight_matching`.

It also has a pygame front end.

This project models the logic of the game and of the solvers.

- **Scoring.** Grids and pairs, and the score. Lemmas tie the score to the matching weight `2·min(v_u, v_v)`.
- **Game rules.** The colour table `can_pair`, the check `pair_is_valid`, and the file-name parser
  `extract_difficulty`.
- **Game session.** A `Session` class for the cell-click transition and the end-of-game test.
- **Greedy solvers.** Both runs are proved equal to a fold of one step function. The step picks the
  cheapest available partner, and the result is a list of disjoint candidate pairs.
- **Shared flow network.**
  - The network is built from the candidate pairs.
  - The breadth-first search returns exactly when the sink is reachable.
  - The parent walk gives a path of distinct nodes from the source to the sink.
  - The matching is read off the final graph.
- **Flow and matching.**
  - A graph stands for a matching of the candidate edges when it holds exactly the edges that
    matching determines:
    - s→ each unmatched even cell, and each matched even cell → s;
    - even → odd along each unmatched candidate edge, and odd → even along each matched one;
    - each unmatched odd cell → t, and t → each matched odd cell.
  - The built network stands for the empty matching.
  - Reversing an s–t path of distinct nodes turns it into a graph that stands for the matching
    augmented along the path.
  - Reading the odd cells' lists gives exactly the pairs of that matching, each once.
  - Both flow solvers keep this as a loop invariant, so each returns a matching of candidate edges.
  - A graph standing for M with no s–t path has M as a maximum matching. For each pair of M, the
    cover takes its odd cell when s reaches it and its even cell otherwise. Every candidate edge
    meets the cover, so no matching has more pairs than the cover has cells.
- **Ford–Fulkerson (course version).**
  - Edits a `FlowGraph` object in place.
  - Each augmentation takes exactly one edge out of the source.
  - The loop ends with the sink unreachable.
- **Edmonds–Karp (`color_grid_game` version).**
  - The `ValueError` on an empty input is modelled.
  - The caller's graph is left unchanged.
  - The guarded edge flips never create a duplicate.
  - The number of augmentations is bounded by the number of even cells.
- **Hungarian matcher.**
  - The bipartite graph and the cost matrix, where a missing edge is `-inf`.
  - The `p`/`way` rotation on arrays, proved to assign the new row and keep the assignment one-to-one.
  - The extraction of `matches`, proved to be a matching with one entry per assigned column.
- **Blossom solver.**
  - The graph `run` builds, `matching_dict_to_set`, `Blossom.leaves`, the start of
    `max_weight_matching`, `slack` and `assignLabel`.
  - `scanBlossom`, `augmentBlossom` and `augmentMatching`.
  - The dual step, the `mate` symmetry check and `verifyOptimum`.
  - The shared state is a `Matcher` class. Its fields are the dictionaries the closures mutate.
  - A weak-duality lemma shows what the assertions of `verifyOptimum` guarantee. When they pass with no
    blossom dual left, no matching of the graph outweighs the one they accept.

Modelling conventions:

- Integers are unbounded, as in Python.
- A raised exception or a failed `assert` becomes an `Err`, a `None`, `Raised` or `ok == false`,
  depending on the member.
- `dict.get(k)` of an absent key, and a value set to `None` where only `.get` reads it, are both
  absent keys.
- Python set iteration order is not specified by the language. Where a loop runs over a set, the
  model lets it take any order and proves properties that hold for every order.
- The grid's own code (`Grid`, `grid_from_file`, `is_forbidden`, `vois`, `all_pairs`) is not part of
  this model. A `Grid` value carries its colour and value tables together with those three as data.
  `WellFormed` states what the game's rule text says about them.

Both copies of the game front end, `ensae-prog25/code/game.py` and `code/game.py`, have the same logic
in the modelled parts. The model covers both once, and the table cites the first copy. The matching
lines of the second copy are: `can_pair` at 206-213, `pair_is_valid` at 215-225, the click handling
at 350-371, the end-of-game test at 419-428 and `extract_difficulty` at 159-166.

## Model

| member | source | states |
|---|---|---|
| GridModel.AdjacentCrossesParity | ensae-prog25/code/solver.py:231 | neighbouring cells have opposite parity, so every candidate pair has one even and one odd end |
| GridModel.RowMajorCells | ensae-prog25/code/solver.py:140-142 | the nested `for i / for j` loops visit every cell of the grid exactly once, in row-major order |
| Scoring.ScoreOfNoPairs | ensae-prog25/code/solver.py:50-55 | with no pairs the score is the sum of the values of all non-forbidden cells, row by row |
| Scoring.Weight | color_grid_game/solvers/solver_blossom.py:30-34 | the edge weight `-(cost - v_u - v_v)` equals twice the smaller of the two values |
| Scoring.ScoreByWeights | ensae-prog25/code/solver.py:50-55 | for disjoint pairs of unforbidden cells, score = free total − total pair weight; on a well-formed grid each pair lowers the score by at least 2 |
| Scoring.ScoreIsFreeMinusWeights | ensae-prog25/code/solver.py:50-55 | for disjoint pairs of unforbidden cells, each pair takes its two cells out of the unpaired sum and adds its cost, so the score falls by exactly the pair weight |
| Scoring.WeightsAtLeastTwo | ensae-prog25/code/solver.py:50-55 | on a well-formed grid (every value at least 1) the pairs weigh at least 2 each |
| GameRules.CanPair | ensae-prog25/code/game.py:290-298 | `can_pair` holds iff the colours are compatible by the rule table (white–white/red/blue/green, red/blue–white/red/blue, green–white/green), and never for black |
| GameRules.CanPairSymmetric | ensae-prog25/code/game.py:297-298 | `can_pair` is symmetric; a colour outside 0..3 pairs with nothing, through the empty-set default |
| GameRules.PairIsValidExtends | ensae-prog25/code/game.py:300-311 | for neighbouring cells, `pair_is_valid` holds iff appending the pair to a valid matching leaves it valid: neither cell forbidden, neither already used, colours compatible |
| GameRules.PairIsValidAntitone | ensae-prog25/code/game.py:305-308 | more existing pairs can only make a pair invalid |
| GameSession.Session.constructor | ensae-prog25/code/game.py:417-428 | a new game on a well-formed grid starts with no pairs and no selected cell, a valid state |
| GameSession.FirstPairWith | ensae-prog25/code/game.py:456-457 | the index found is of a pair containing the cell, with no such pair before it |
| GameSession.WithoutFirstPairWith | ensae-prog25/code/game.py:455-459 | the pairs after the removal are the old ones minus exactly the first pair containing the cell, order kept |
| GameSession.WithoutFirstPairKeepsValid | ensae-prog25/code/game.py:455-459 | removing that pair keeps a valid matching valid and frees exactly its two cells |
| GameSession.GameOverIsMaximal | ensae-prog25/code/game.py:520 | when no candidate pair is valid any more, no candidate pair can be added to the player's matching |
| GameSession.Session.Click | ensae-prog25/code/game.py:451-472 | forbidden cell: selection cleared, pairs unchanged; paired cell: first pair containing it removed; free cell: selected, and a second selection appends the pair iff it is a neighbour with compatible colours, after which the selection is cleared; the session stays a valid matching |
| GameSession.Session.EndOfGame | ensae-prog25/code/game.py:520-529 | the game ends iff the solution is not shown and no candidate pair is valid; the player wins iff the score is at most the solver's; pairs and selection are then reset, otherwise unchanged |
| Difficulty.LastField | ensae-prog25/code/game.py:245-247 | `split('_')[-1]` is the longest suffix without an underscore, preceded by one when shorter than the text |
| Difficulty.ExtractDifficultyRoundTrip | ensae-prog25/code/game.py:242-249 | for a name `grid<X>_<D>.in`, the difficulty read back is the integer D |
| Difficulty.LastFieldAfterUnderscore | ensae-prog25/code/game.py:245-247 | the last field of `x_t`, for t without an underscore, is t |
| Difficulty.ParseIntText | ensae-prog25/code/game.py:247 | `int()` reads back the decimal text of any integer, sign included |
| Difficulty.NoDigitsNoDifficulty | ensae-prog25/code/game.py:248-249 | a last field without a digit gives difficulty 0 (the `ValueError` default) |
| Difficulty.DigitsRoundTrip | ensae-prog25/code/game.py:247 | parsing the decimal digits of a number gives the number back |
| Greedy.BuildPairDict | ensae-prog25/code/solver.py:132-135 | `pair_dict[c]` lists exactly the candidate pairs containing c, in candidate order; the keys come in first-insertion order |
| Greedy.KeyOrderMembers | ensae-prog25/code/solver.py:186 | the keys of `pair_dict` are the cells of the candidate pairs, each once |
| Greedy.IncidentMembers | ensae-prog25/code/solver.py:133-135 | a cell's list holds exactly the candidate pairs that contain it |
| Greedy.AvailableMembers | ensae-prog25/code/solver.py:144-145 | the filter inside `min` keeps exactly the pairs with an unused cell |
| Greedy.FirstMin | ensae-prog25/code/solver.py:144-146 | `min(..., key=cost)` picks a candidate of least cost, the first one among ties |
| Greedy.CandidatesOfCell | ensae-prog25/code/solver.py:144-145 | every candidate considered for c is a grid candidate pair containing c with an unused cell |
| Greedy.StepChoosesCheapest | ensae-prog25/code/solver.py:140-156 | a scanned unused cell with no available partner stays unpaired; otherwise it is paired (scanned cell first) with an unused partner of minimal cost among all still available, and both become used |
| Greedy.StepPicksStrictMinimum | ensae-prog25/code/solver.py:144-153 | a partner strictly cheaper than every other available one is the one chosen |
| Greedy.StepKeepsInv | ensae-prog25/code/solver.py:140-156 | one step keeps the pairs disjoint candidate pairs whose cells are all used |
| Greedy.ScanKeepsInv | ensae-prog25/code/solver.py:137-158 | whatever the scanning order, the result is a list of disjoint candidate pairs and every scanned cell ends up used |
| Greedy.Visit | ensae-prog25/code/solver.py:140-156 | the loop body computes exactly one step of the fold |
| Greedy.ScanRow | ensae-prog25/code/solver.py:138-156 | the inner loop over a row extends the fold by that row's cells |
| Greedy.RunGreedy | ensae-prog25/code/solver.py:118-160 | `SolverGreedy.run` returns the fold of the step over the cells in row-major order |
| Greedy.RunGreedy2 | ensae-prog25/code/solver.py:167-206 | `SolverGreedy2.run` returns the fold of the step over the `pair_dict` keys in insertion order |
| Greedy.GreedyResultsAreMatchings | ensae-prog25/code/solver.py:118-206 | both greedy results are disjoint candidate pairs; the row-major scan uses every cell of the grid |
| Fixtures.Grid00WellFormed | ensae-prog25/code/solver.py:83-93 | the 2 × 3 all-white grid with values 5 8 4 / 11 1 3 is a well-formed grid |
| Fixtures.GreedyOnGrid00 | ensae-prog25/code/solver.py:96 | on it, greedy pairs (0,0)-(0,1), (0,2)-(1,2), (1,0)-(1,1) |
| Fixtures.GreedyScore00 | ensae-prog25/code/solver.py:97 | the greedy pairs score 14 |
| Fixtures.GreedyIsNotOptimal00 | ensae-prog25/code/solver.py:97 | pairing (0,0)-(1,0), (0,1)-(0,2), (1,1)-(1,2) is a valid matching of score 12, below the greedy 14 |
| FlowNetwork.AllNodes | ensae-prog25/code/solver.py:273-285 | the nodes a search can meet form a finite set |
| FlowNetwork.Explore | ensae-prog25/code/solver.py:273-285 | the breadth-first search builds a search tree of parents and finds the target iff it is reachable |
| FlowNetwork.VisitSuccessors | ensae-prog25/code/solver.py:278-283 | the inner loop records every unseen successor with its parent, stopping at the target, and keeps the search state |
| FlowNetwork.Visit | ensae-prog25/code/solver.py:279-283 | one successor: recorded with parent u if new; the search stops iff it is a new t; otherwise the search state is kept and nothing recorded is lost |
| FlowNetwork.FoundIsReachable | ensae-prog25/code/solver.py:280-282 | a node recorded in the parent map is reachable from the source |
| FlowNetwork.ExhaustedIsUnreachable | ensae-prog25/code/solver.py:285 | when the queue runs out without the target, the target is unreachable |
| FlowNetwork.ReversedChainIsPath | ensae-prog25/code/solver.py:309-314 | the reversed parent chain of t is a path of distinct nodes from s to t |
| FlowNetwork.ReconstructPath | ensae-prog25/code/solver.py:309-314 | `reconstruct_path` returns the parent chain from t, reversed |
| FlowNetwork.SideMembers | ensae-prog25/code/solver.py:230-233 | the even and odd sets hold exactly the even and odd ends of the candidate pairs |
| FlowNetwork.AddPairEdges | ensae-prog25/code/solver.py:230-234 | after the pair loop, each even cell's list holds its odd partners in candidate order |
| FlowNetwork.AddSourceEdges | ensae-prog25/code/solver.py:237-238 | the source gets one edge to each even cell, without repeats, in some set order |
| FlowNetwork.AddSinkEdges | ensae-prog25/code/solver.py:241-242 | each odd cell gets one edge to the sink; nothing else changes |
| FlowNetwork.BuildNetwork | color_grid_game/solvers/solver_ford_fulkerson.py:22-39 | the network: each even cell's list holds its odd partners in candidate order (then t when the cell is also odd), s→every even cell once, every odd cell→t, no list for t |
| FlowNetwork.ReadPairs | ensae-prog25/code/solver.py:342 | the result is the concatenation, over the odd cells in some set order, of each cell's even successors in list order, as (even, odd); it has no repeat when no list has one |
| FlowNetwork.ReadOddCell | ensae-prog25/code/solver.py:342 | the inner loop collects the even successors of one odd cell in list order |
| FlowNetwork.ReadOddMembers | ensae-prog25/code/solver.py:342 | a pair is read from an odd cell's list iff its even end is an even cell on that list |
| FlowNetwork.ReadOddNoDup | ensae-prog25/code/solver.py:342 | a list without repeats reads without repeats |
| FlowNetwork.ReadAllMembers | ensae-prog25/code/solver.py:342 | a pair is in the result iff its odd end is one of the cells read and its even end is an even cell on that cell's list |
| FlowNetwork.ReadAllNoDup | ensae-prog25/code/solver.py:342 | distinct odd cells with lists free of repeats give a result without repeats |
| FordFulkerson.Bfs | ensae-prog25/code/solver.py:252-285 | `bfs` returns a path iff t is reachable, and it is a path of distinct nodes from s to t |
| FordFulkerson.Flip | ensae-prog25/code/solver.py:339-340 | one reversal removes the first u→v edge and appends v→u, touching no other list |
| FordFulkerson.FlipKeepsPath | ensae-prog25/code/solver.py:338-340 | after reversing the first edge, the rest of the path is still a path |
| FordFulkerson.FlipAllOffPath | ensae-prog25/code/solver.py:338-340 | a node off the path keeps its successors |
| FordFulkerson.SourceLosesOneEdge | ensae-prog25/code/solver.py:338-340 | reversing an augmenting path takes exactly one edge out of s |
| FordFulkerson.FlipMembers | ensae-prog25/code/solver.py:339-340 | after one reversal, v→u is present, u→v absent, every other edge as before; no repeat appears when v→u was absent |
| FordFulkerson.FlipAllMembers | ensae-prog25/code/solver.py:338-340 | reversing a simple path whose reverse edges are absent keeps lists free of repeats, and an edge is present afterwards iff it was present and not on the path, or its reverse is on the path |
| FordFulkerson.ReversePath | ensae-prog25/code/solver.py:338-340 | the in-place loop leaves the graph with every path edge reversed |
| FordFulkerson.FordFulkerson | ensae-prog25/code/solver.py:317-342 | the loop ends with t unreachable; the result is read off the final graph; the number of rounds equals the edges s lost; started on a network built from candidate edges, the final graph stands for a matching of those edges, the result lists exactly its pairs, each once, and no matching of the candidate edges is larger: the maximum matching the docstring promises |
| FordFulkerson.Run | ensae-prog25/code/solver.py:213-249 | `run` builds the network from the candidate pairs and returns pairs read off a final graph in which t is unreachable; with bipartite candidate pairs, that graph stands for the returned matching, whose pairs are distinct, pairwise disjoint candidate edges, no matching of the candidate edges is larger, and it is non-empty when there is a candidate pair |
| EdmondsKarp.BfsParents | color_grid_game/solvers/solver_ford_fulkerson.py:67-79 | `bfs` returns the empty map iff t is unreachable; otherwise a parent tree containing t |
| EdmondsKarp.GuardedFlipKeepsNoDup | color_grid_game/solvers/solver_ford_fulkerson.py:119-122 | the guarded remove and append never put a repeat into an adjacency list |
| EdmondsKarp.FlipChainKeepsNoDup | color_grid_game/solvers/solver_ford_fulkerson.py:116-123 | the whole walk keeps every list free of repeats |
| EdmondsKarp.AugmentShrinksSource | color_grid_game/solvers/solver_ford_fulkerson.py:116-123 | one augmentation removes exactly one out-edge of s |
| EdmondsKarp.CopyGraph | color_grid_game/solvers/solver_ford_fulkerson.py:100-102 | the residual graph starts as a copy of every list |
| EdmondsKarp.GuardedFlipMembers | color_grid_game/solvers/solver_ford_fulkerson.py:119-122 | after a guarded flip of u→v, v→u is present, u→v absent, every other edge as before |
| EdmondsKarp.FlipChainMembers | color_grid_game/solvers/solver_ford_fulkerson.py:116-123 | after the walk, an edge is present iff it was present and the walk did not cross it, or the walk crossed its reverse |
| EdmondsKarp.Augment | color_grid_game/solvers/solver_ford_fulkerson.py:116-123 | the in-place walk from t to s leaves the residual graph as the chain of guarded flips says |
| EdmondsKarp.EdmondsKarp | color_grid_game/solvers/solver_ford_fulkerson.py:82-125 | raises iff the graph or a cell side is empty; otherwise ends with t unreachable in the residual graph, the result is read from it, the caller's graph is unchanged, the rounds equal the edges s lost, and no list gains a repeat; started on a network built from candidate edges, the residual graph stands for a matching of those edges, the result lists exactly its pairs, each once, and no matching of the candidate edges is larger: the maximum matching the docstring promises |
| EdmondsKarp.SourceEdgesCount | color_grid_game/solvers/solver_ford_fulkerson.py:34-35 | s has exactly one edge per even cell |
| EdmondsKarp.Run | color_grid_game/solvers/solver_ford_fulkerson.py:13-46 | builds the network from the candidate pairs; raises iff the grid has no candidate pair; otherwise the pairs are read from a residual graph without an s–t path, after as many rounds as the edges s lost and at most as many as even cells; with bipartite candidate pairs, that graph stands for the returned matching, whose pairs are distinct, pairwise disjoint candidate edges, no matching of the candidate edges is larger, and it is non-empty |
| FlowMatching.BuiltIsNetwork | ensae-prog25/code/solver.py:225-242 | with bipartite candidate pairs, the built graph stands for the empty matching of their edges: s→each even cell, each even cell→its partners, each odd cell→t, lists without repeats |
| FlowMatching.OddSuccessorsMembers | ensae-prog25/code/solver.py:230-234 | the cells on an even cell's list are the odd ends of its candidate edges |
| FlowMatching.OddSuccessorsNoDup | ensae-prog25/code/solver.py:230-234 | distinct candidate edges put no repeat on an even cell's list |
| FlowMatching.EdgeAntisymmetric | ensae-prog25/code/solver.py:338-340 | a graph standing for a matching never holds an edge both ways |
| FlowMatching.PathReverseAbsent | ensae-prog25/code/solver.py:338-340 | so no edge of an s–t path has its reverse in the graph, and the reversal appends no repeat |
| FlowMatching.StepReverse | color_grid_game/solvers/solver_ford_fulkerson.py:116-123 | the walk from t back to s crosses the edges of the path read backwards |
| FlowMatching.MatchedEvenAfter | ensae-prog25/code/solver.py:338-340 | after an augmentation an even cell is matched iff it was before or the path leaves s to it |
| FlowMatching.MatchedOddAfter | ensae-prog25/code/solver.py:338-340 | after an augmentation an odd cell is matched iff it was before or the path enters t from it |
| FlowMatching.AugmentedIsMatching | ensae-prog25/code/solver.py:338-340 | swapping the matched and unmatched candidate edges along an s–t path gives a matching of candidate edges |
| FlowMatching.EdgeAfter | ensae-prog25/code/solver.py:338-340 | the edges the reversal leaves are exactly those the augmented matching determines |
| FlowMatching.AugmentKeeps | ensae-prog25/code/solver.py:338-340 | reversing an s–t path in a graph standing for a matching gives a graph standing for the augmented matching |
| FlowMatching.ReadIsMatching | ensae-prog25/code/solver.py:342 | reading the odd cells' lists of a graph standing for a matching gives exactly the pairs of that matching |
| FlowMatching.MatchingListDisjoint | ensae-prog25/code/solver.py:342 | the pairs of a matching, listed once each, share no cell |
| FlowMatching.SidesSplit | ensae-prog25/code/solver.py:230-233 | with bipartite candidate pairs, every candidate edge runs from the even side to the odd side, and the sides share no cell |
| FlowMatching.SingleEdgeMatching | ensae-prog25/code/solver.py:230-234 | any one candidate edge is a matching of the candidate edges |
| FlowMatching.ReachStep | ensae-prog25/code/solver.py:273-285 | reachability from s spreads along every edge |
| FlowMatching.CoverMeets | ensae-prog25/code/solver.py:317-342 | in a graph standing for M with no s–t path, every candidate edge has an end in the cover (per pair of M, its odd cell if reachable from s, else its even cell) |
| FlowMatching.CoverSize | ensae-prog25/code/solver.py:317-342 | the cover has at most as many cells as M has pairs |
| FlowMatching.InjectionSize | ensae-prog25/code/solver.py:317-342 | a set mapped one-to-one into another is no larger |
| FlowMatching.NoPathIsMaximum | ensae-prog25/code/solver.py:317-342 | max-flow/min-cut: a graph standing for M with no s–t path has M as a maximum matching of the candidate edges |
| FlowMatching.ListedIsMaximum | ensae-prog25/code/solver.py:329-342 | the pairs read off such a graph are at least as many as those of any matching of the candidate edges |
| FlowMatching.Solved | ensae-prog25/code/solver.py:213-249 | a run that ends on a graph standing for a maximum matching it lists once returns distinct, disjoint candidate edges, as many as any matching, and at least one when there is a candidate pair |
| HungarianGraph.BuildBipartite | ensae-prog25/code/solver.py:411-442 | the loop builds the dictionaries that `BipartiteOf` describes |
| HungarianGraph.AddPairStep | ensae-prog25/code/solver.py:423-440 | one turn of that loop |
| HungarianGraph.BipartiteNodes | ensae-prog25/code/solver.py:434-437 | the even and odd node lists hold exactly the even and odd ends of the candidate pairs, each once |
| HungarianGraph.BipartiteLists | ensae-prog25/code/solver.py:439 | each even node's list holds its odd partners in candidate order |
| HungarianGraph.BipartiteWeights | ensae-prog25/code/solver.py:431-440 | a weight is stored exactly for each listed (even, odd) edge, and it is twice the smaller value |
| HungarianGraph.BipartiteConsistent | ensae-prog25/code/solver.py:439-440 | every listed edge has a weight |
| HungarianGraph.EdgeEntry | ensae-prog25/code/solver.py:422-440 | o is listed under e iff a candidate pair joins them, with weight twice the smaller value |
| HungarianGraph.CostMatrix | ensae-prog25/code/solver.py:447-457 | entry (i, j) of the n × m matrix is the weight of the edge between even node i and odd node j, or `-inf` |
| HungarianGraph.Setup | ensae-prog25/code/solver.py:403-457 | the node lists are the two sides without repeats, and an entry is finite iff a candidate pair joins its nodes, then holding twice the smaller value |
| HungarianRotation.Rotate | ensae-prog25/code/solver.py:501-506 | the in-place loop leaves `p` as the rotation along the `way` path |
| HungarianRotation.RotatedShift | ensae-prog25/code/solver.py:501-506 | each column on the path receives the row of the next column on it; all other columns keep theirs |
| HungarianRotation.RotationAssignsRow | ensae-prog25/code/solver.py:467-506 | a phase's rotation keeps the assignment one-to-one and adds exactly the new row i |
| HungarianExtract.MatchesOrdered | ensae-prog25/code/solver.py:508-511 | the key order of `matches` lists each key once |
| HungarianExtract.MatchesContent | ensae-prog25/code/solver.py:508-511 | with a one-to-one assignment, each assigned column maps its row's even node to its odd node, keys and values are distinct, and there is one entry per assigned column |
| HungarianExtract.MatchesCount | ensae-prog25/code/solver.py:508-511 | with a one-to-one assignment, each assigned column adds a new key, so `matches` has one entry per assigned column |
| HungarianExtract.Items | ensae-prog25/code/solver.py:517 | `items()` lists each key with its value, in insertion order |
| HungarianExtract.Extract | ensae-prog25/code/solver.py:508-517 | the extraction returns the items of the dictionary the column loop builds |
| HungarianExtract.ExtractIsMatching | ensae-prog25/code/solver.py:508-517 | the result has one pair per assigned column, no even or odd node twice, and contains every assigned (row, column) pair |
| BlossomGraph.BuildGraph | color_grid_game/solvers/solver_blossom.py:27-34 | the loop builds the graph `GraphOf` describes |
| BlossomGraph.AddEdgeFacts | color_grid_game/solvers/solver_blossom.py:34 | `add_edge` links u and v with the given weight, in both directions, and changes no other edge or weight |
| BlossomGraph.GraphOfFacts | color_grid_game/solvers/solver_blossom.py:27-34 | every candidate pair is an edge of weight twice the smaller value; every edge is a candidate pair; the nodes are the cells of the pairs |
| BlossomGraph.GraphOfPairs | color_grid_game/solvers/solver_blossom.py:29-34 | every candidate pair is an edge of weight twice the smaller value, in either orientation |
| BlossomGraph.GraphOfEdges | color_grid_game/solvers/solver_blossom.py:29-34 | every edge of the built graph joins the two cells of a candidate pair |
| BlossomGraph.GraphOfNodes | color_grid_game/solvers/solver_blossom.py:29-34 | the nodes of the built graph are exactly the cells of the candidate pairs |
| BlossomGraph.GraphOfSimple | color_grid_game/solvers/solver_blossom.py:28-34 | the built graph has no repeated node or edge and one weight per edge |
| BlossomGraph.MaxWeight | color_grid_game/solvers/solver_blossom.py:128-137 | an empty graph returns at once; otherwise `maxweight` is at least 0 and every non-loop weight, and equals one of them unless 0 |
| BlossomGraph.InitialDuals | color_grid_game/solvers/solver_blossom.py:147 | there is one vertex dual per node |
| BlossomGraph.SlackSymmetric | color_grid_game/solvers/solver_blossom.py:152-168 | `slack(v, w) == slack(w, v)` |
| BlossomGraph.InitialSlack | color_grid_game/solvers/solver_blossom.py:132-168 | with the initial duals, every vertex dual is non-negative and no edge between distinct vertices has negative slack |
| BlossomResult.MatchingToSet | color_grid_game/solvers/solver_blossom.py:61-69 | the loop computes `Collect` of the items |
| BlossomResult.ErrorStays | color_grid_game/solvers/solver_blossom.py:66-67 | once the loop raises, the whole call raises |
| BlossomResult.CollectFacts | color_grid_game/solvers/solver_blossom.py:61-69 | raises iff some vertex is mated to itself; otherwise each item is in the set in exactly one orientation, and the set holds only items and no loops |
| BlossomTree.Leaves | color_grid_game/solvers/solver_blossom.py:111-126 | the explicit-stack traversal yields `Drain` of the children |
| BlossomTree.DrainYieldsLeaves | color_grid_game/solvers/solver_blossom.py:120-126 | a stack yields exactly the vertices nested in its nodes, with multiplicity |
| BlossomTree.LeavesAreNestedVertices | color_grid_game/solvers/solver_blossom.py:111-126 | `leaves()` yields exactly the vertices reachable through the nested `childs` lists |
| BlossomTree.NestedPermuted | color_grid_game/solvers/solver_blossom.py:439-440 | turning the children of a blossom keeps the nesting |
| BlossomMatcher.DualStepSlack | color_grid_game/solvers/solver_blossom.py:613-617 | the dual step changes an edge's slack by −delta per outer end and +delta per inner end; so outer–inner edges keep their slack, and a delta within the slack bounds keeps it non-negative |
| BlossomMatcher.HeightDrops | color_grid_game/solvers/solver_blossom.py:502-505 | each step up `blossomparent` lowers the height, so the walks up end |
| BlossomMatcher.ChainUp | color_grid_game/solvers/solver_blossom.py:500-505 | the chain starts at the node itself |
| BlossomMatcher.MinUnique | color_grid_game/solvers/solver_blossom.py:490 | the minimum of the duals is unique |
| BlossomMatcher.Offset | color_grid_game/solvers/solver_blossom.py:489-493 | `vdualoffset` is non-negative, and with `maxcardinality` lifts the smallest dual to at least 0 |
| BlossomMatcher.Rotated | color_grid_game/solvers/solver_blossom.py:439-440 | `s[i:] + s[:i]` is a permutation of s |
| BlossomMatcher.TurnKeeps | color_grid_game/solvers/solver_blossom.py:439-440 | turning the children and edges of b keeps the blossom structure and changes nothing outside b |
| BlossomMatcher.WithinTrans | color_grid_game/solvers/solver_blossom.py:444-451 | a change confined to a sub-blossom, after a change confined to b, is confined to b |
| BlossomMatcher.Matcher.constructor | color_grid_game/solvers/solver_blossom.py:140-150 | the initial state: nothing matched or labelled, each vertex its own top-level blossom and base, every vertex dual `maxweight` |
| BlossomMatcher.Matcher.AssignLabel | color_grid_game/solvers/solver_blossom.py:170-198 | w and its blossom get label t and label edge (v, w) and lose their best edge; outer blossoms queue exactly their leaves; an inner label labels the mate of the base outer at once through the edge from the base |
| BlossomMatcher.Matcher.ScanBlossom | color_grid_game/solvers/solver_blossom.py:200-237 | without an error the labels are restored; the marked path has distinct blossoms, all formerly outer; a base found belongs to a blossom marked on the path or already marked |
| BlossomMatcher.Matcher.AugmentBlossom | color_grid_game/solvers/solver_blossom.py:403-451 | only b and blossoms inside it change; no vertex becomes unmatched; on success b's children and edges are turned to start at the child holding v, and v is b's base |
| BlossomMatcher.Matcher.ChildHolding | color_grid_game/solvers/solver_blossom.py:415-417 | the node found is a child of b |
| BlossomMatcher.Matcher.SwapStep | color_grid_game/solvers/solver_blossom.py:424-438 | one turn moves j two steps, keeps b's lists, changes only blossoms inside b, and leaves the crossed edge matched both ways |
| BlossomMatcher.Matcher.Enter | color_grid_game/solvers/solver_blossom.py:426-434 | the recursion into a child keeps b's own lists |
| BlossomMatcher.Matcher.Turn | color_grid_game/solvers/solver_blossom.py:439-442 | children and edges of b are turned by i; on success the base of b is v |
| BlossomMatcher.Matcher.Recurse | color_grid_game/solvers/solver_blossom.py:444-451 | the recursion into a sub-blossom keeps b's lists and changes only blossoms inside b |
| BlossomMatcher.Matcher.AugmentMatching | color_grid_game/solvers/solver_blossom.py:453-483 | no vertex becomes unmatched; on success both v and w are matched; the blossom structure is kept |
| BlossomMatcher.Matcher.AugmentPath | color_grid_game/solvers/solver_blossom.py:464-483 | the walk from s to the root of its tree ends, leaves no vertex unmatched, and on success s is matched |
| BlossomMatcher.Matcher.MatchOuter | color_grid_game/solvers/solver_blossom.py:466-474 | on success s is matched with j and its blossom has a label-edge entry |
| BlossomMatcher.Matcher.MatchInner | color_grid_game/solvers/solver_blossom.py:475-483 | on success the next vertex is the one two label edges up, and the vertex it comes from is matched with it |
| BlossomMatcher.Matcher.Augment | color_grid_game/solvers/solver_blossom.py:471-472 | augmenting a blossom unmatches no vertex |
| BlossomMatcher.Matcher.DualStep | color_grid_game/solvers/solver_blossom.py:613-623 | each vertex dual is lowered by delta under an outer blossom and raised under an inner one; each top-level blossom dual is raised when outer and lowered when inner; all other duals are unchanged |
| BlossomMatcher.Matcher.VerifyOptimum | color_grid_game/solvers/solver_blossom.py:485-522 | returns normally iff the duals (offset included) and blossom duals are non-negative, every edge check holds, every unmatched vertex has dual 0, and every blossom of positive dual is odd with every second edge matched |
| BlossomMatcher.Matcher.MinDual | color_grid_game/solvers/solver_blossom.py:490-493 | `min(dualvar.values())` is the least dual |
| BlossomMatcher.Matcher.BlossomDualsNonNegative | color_grid_game/solvers/solver_blossom.py:494 | holds iff every blossom dual is non-negative |
| BlossomMatcher.Matcher.CheckEdges | color_grid_game/solvers/solver_blossom.py:495-515 | holds iff every edge passes its check |
| BlossomMatcher.Matcher.CheckEdge | color_grid_game/solvers/solver_blossom.py:496-515 | a non-loop edge passes iff its slack plus the shared blossom duals is non-negative, and zero with both mate entries when it is matched either way |
| BlossomMatcher.Matcher.AncestorsOf | color_grid_game/solvers/solver_blossom.py:500-505 | the walk up `blossomparent` returns the chain of ancestors |
| BlossomMatcher.Matcher.SumShared | color_grid_game/solvers/solver_blossom.py:508-511 | the `zip` loop adds twice the dual of each blossom shared from the top down |
| BlossomMatcher.Matcher.CheckUnmatched | color_grid_game/solvers/solver_blossom.py:516-517 | holds iff every vertex is matched or has dual 0 after the offset |
| BlossomMatcher.Matcher.CheckBlossoms | color_grid_game/solvers/solver_blossom.py:518-522 | holds iff every blossom of positive dual passes its check |
| BlossomMatcher.Matcher.CheckBlossom | color_grid_game/solvers/solver_blossom.py:519-522 | holds iff the blossom has an odd number of edges and every second edge is matched both ways |
| BlossomMatcher.Matcher.CheckMates | color_grid_game/solvers/solver_blossom.py:636-637 | holds iff every matched vertex is the mate of its mate |
| BlossomDuality.CoverBound | color_grid_game/solvers/solver_blossom.py:512-515 | edges weighing at most half their ends' duals weigh at most half the dual sum of their ends, exactly half when tight |
| BlossomDuality.EdgeSlack | color_grid_game/solvers/solver_blossom.py:499-515 | with no blossom dual, an edge passing the check weighs at most half its ends' duals, and exactly half when matched |
| BlossomDuality.MatchingEdges | color_grid_game/solvers/solver_blossom.py:495-515 | every edge of any matching of the graph, listed either way round, satisfies that bound |
| BlossomDuality.WeakDuality | color_grid_game/solvers/solver_blossom.py:485-522 | when the checks pass with no blossom dual left and without `maxcardinality`, no matching of the graph weighs more than the accepted matching |

## Left out

- The pygame front end is not modelled: drawing, scrolling, the menu, the rules screen, the restart,
  solution and menu buttons, and `reset_game_state`, which re-enters `main`. `GridManager.__init__`,
  `load_grid` and the float colour interpolation of `get_difficulty_color` are I/O and floating point.
- GameSession.Session.Click: the click handler computes the cell as `(y // 60, x // 60)` and checks
  only that y lies above the button bar. For a grid narrower than 10 columns the window is 600
  pixels wide, so a click right of the grid reaches `is_forbidden` with a column index of m or more.
  What `is_forbidden` does then belongs to `Grid`, which is not part of this model, so Click
  requires a cell inside the grid and does not model those clicks.
- `Grid`, `grid_from_file`, `is_forbidden`, `vois` and `all_pairs` are not part of this model. A grid
  carries them as data, constrained only by `WellFormed`.
- Difficulty.ParseInt: accepts ASCII digits with an optional sign only. Python's `int()` also
  accepts surrounding whitespace, underscores between digits and non-ASCII digits.
- `SolverEmpty` does nothing and is not modelled.
- `SolverGeneral.run`: the search loop of the Hungarian phase is not modelled (its ±infinity float
  arithmetic, `u`, `v`, `minv`, `used`). The model starts from the `p`/`way` arrays that loop leaves.
  HungarianRotation.RotationAssignsRow therefore assumes the path the search found, and
  HungarianExtract.ExtractIsMatching assumes the one-to-one assignment the phases keep. Neither
  claims that a returned pair is a candidate edge.
- The Ford–Fulkerson tests read grid files whose contents are not modelled, so the expected pairs of
  those tests are not stated. Their result also depends on the iteration order of Python sets.
- EdmondsKarp.EdmondsKarp: the `path_flow` loop computes a value nothing reads, and it is left out.
- FordFulkerson.Run: the matching and maximality conclusions are stated for candidate pairs that
  each join an even and an odd cell, no two of them joining the same two cells (`Bipartite`).
  `all_pairs` produces such pairs of neighbours, but it is not part of this model, so the condition
  is a hypothesis of the ensures rather than a proved fact.
- EdmondsKarp.Run: the same `Bipartite` hypothesis guards its matching and maximality conclusions.
- `Solver_Blossom.run` calls `networkx.max_weight_matching`, which is foreign code. The model keeps
  the graph it builds and the repository's own copy of the algorithm's pieces.
- The blossom algorithm's stage and phase loops, `addBlossom`, `expandBlossom`, the choice of delta,
  `bestedge` upkeep and `allowedge` are not modelled.
  - The model gives each piece its own contract, as its call site requires.
  - The `allinteger` test through `str(type(wt))` and the float slack `kslack / 2.0` are left out.
    The weights here are integers.
- Blossom objects are named by numbers, with children numbered below their parent. The edge order of
  networkx's `G.edges()` is taken as the graph's edge list.
- BlossomMatcher.Matcher.AssignLabel: the leading `assert` that w and its blossom are unlabelled is a
  precondition instead of an error path.
- BlossomMatcher.Matcher.ScanBlossom: the contract does not state that the base found is that of the
  nearest common ancestor of the two trees. It states only where the base comes from, and that the
  labels are restored.
- BlossomMatcher.Matcher.AugmentBlossom: the contract does not state that the swapped edges keep
  `mate` symmetric. It states that no vertex becomes unmatched, which blossoms change, the turn of
  the lists and the new base.
- BlossomMatcher.Matcher.AugmentMatching: the contract does not state that the matching grows by one
  edge or stays symmetric.
- BlossomMatcher.Matcher.SwapStep: the contract states that the crossed edge ends matched both
  ways. It does not state how the recursive calls change `mate` inside the sub-blossoms, beyond
  the confinement to b that `From` gives.
- BlossomMatcher.Matcher.Enter: the contract does not state how `mate` changes inside the child
  blossom. It states only that b's own lists are kept and the change stays inside b.
- BlossomMatcher.Matcher.Recurse: the contract does not state how `mate` changes inside the
  sub-blossom. It states only that b's lists are kept and the change stays inside b.
- BlossomMatcher.Matcher.Augment: the contract does not state how `mate` changes. It states only
  that no vertex becomes unmatched and the blossom structure is kept.
- BlossomMatcher.Matcher.AugmentPath: the contract does not state that the edges along the
  alternating path are swapped or that `mate` stays symmetric. It states only that the walk ends,
  no vertex becomes unmatched, and s ends matched.
- BlossomMatcher.Matcher.MatchOuter: the contract states the one `mate` entry it writes. It does not
  state what the augmentation of the outer blossom changes, beyond unmatching no vertex.
- BlossomMatcher.Matcher.MatchInner: the contract states the one `mate` entry it writes. It does not
  state what the augmentation of the inner blossom changes, beyond unmatching no vertex.
  - Termination rests on a ghost rank on blossoms that falls along the label edges. The rank is a
    precondition standing for the alternating-tree structure that the stage loop builds.
  - A failed `assert` or a missing key returns `false`, after the state changes the source would
    already have made.
- BlossomDuality.WeakDuality: proved only for the final state with every blossom dual 0 and without
  `maxcardinality`. It does not prove that the blossom algorithm reaches such a state.
- In `augmentBlossom` the source walks a generator stack. The model uses plain recursion on the blossom
  number, in the same order.
