# jsPathFinding in Dafny

This project models jsPathFinding, a shortest-path engine on a directed graph stored as a list of edges. The repository has two versions of it:

- `pathFinding.js` is the weighted version. Vertices are compared by id, and every edge carries a cost.
- `main.js` is the older version. Vertices are plain values, and every step costs 1.

Both versions find a path with Dijkstra's algorithm. They have no priority queue: each round scans the unmarked vertices for the smallest distance, keeping the leftmost vertex on a tie. Relaxation replaces a distance only when the new one is strictly smaller. The path is rebuilt by following `previous` back from the target.

The modules:

- `ExtendedNat`: distances, either a natural number or +infinity (`Number.POSITIVE_INFINITY` in pathFinding.js).
- `Results`: the `Option` and `Result` datatypes.
- `SeqUtil`: lists without repetitions, first-seen order, first-seen deduplication and reversal.
- `Edges`: the edge, `findReachableNeighbors`, `findCost`, `findAllVertices`, and paths with their cost.
- `Selection`: `minDist` and `findSmallestUnmarked`.
- `Relaxation`: one relaxation round over the neighbours of the vertex just marked.
- `Dijkstra`:
  - the `while` loop of `findPath` with its invariant;
  - `reconstructPath`;
  - the whole query, proved to return `null` exactly when `to` is `from` or cannot be reached, and otherwise a path of minimum cost; among equally cheap paths, the one the final `previous` table spells out.
- `PathFinding`: the `Graph` class of `pathFinding.js` with `addEdge`, `findPath`, `generateCircle` and `generateRandom`.
- `MainGraph`: the `Graph` class of `main.js`. Its search runs the same engine on edges of cost 1, so the result has the fewest vertices possible.
- `TieBreak`: a worked example, the diamond 0 -> 1, 0 -> 2, 1 -> 3, 2 -> 3 with one common cost on every edge. It shows which of the two equally cheap paths `findPath` returns.

Vertices are modelled by their integer id. A path is the sequence of ids it visits. `null` is `None`.

`generateRandom` does not call `Math.random`. Instead it receives the list of indices it would have drawn. Its `throw` is the `Err` value of a `Result`.

## Model

| member | source | states |
|---|---|---|
| Edges.WithConstantCost | pathFinding.js:33-35 | the edge built is the only edge out of `from` in a graph made of it alone, it leads to `to`, and `findCost(from, to)` on it is 1 |
| Edges.NeighborsMember | pathFinding.js:93-99 | `v`'s neighbours are exactly the targets of the edges leaving `v` |
| Edges.Neighbors | pathFinding.js:93-99 | there are never more neighbours than edges |
| Edges.NeighborsAppend | pathFinding.js:93-99 | neighbours keep edge order: the neighbours in `es1 + es2` are those in `es1`, then those in `es2` |
| Edges.Cost | pathFinding.js:107-113 | a finite cost is returned only when some edge goes from `from` to `to` (the first-match rule is `Edges.CostFirstMatch`) |
| Edges.CostFirstMatch | pathFinding.js:107-113 | the cost is finite exactly when an edge `a -> b` exists, and then it is the cost of the first such edge in insertion order; otherwise it is +infinity |
| Edges.CostIsAnEdgeCost | pathFinding.js:107-113 | a finite cost is the cost of some edge `a -> b` |
| Edges.EndpointsMember | pathFinding.js:132-141 | an id is an endpoint exactly when it is the `from` or the `to` of some edge |
| Edges.VerticesOf | pathFinding.js:128-143 | the vertex list has no repeated ids and holds exactly the endpoints of the edges |
| Edges.FindAllVertices | pathFinding.js:128-143 | the result has no repeated ids, holds exactly the endpoints of the edges, and keeps the order in which each id is first seen |
| Edges.EdgeEndsAreVertices | pathFinding.js:128-143 | both ends of an edge are among the vertices |
| Edges.NeighborsAreVertices | pathFinding.js:209-229 | every neighbour is among the vertices, so the distance table has an entry for it |
| Edges.OutsideGraphUnreachable | pathFinding.js:186-215 | a vertex that is no edge endpoint reaches nothing and is reached by nothing, except itself |
| Edges.PathCostFinite | pathFinding.js:107-113 | a sequence of vertices costs a finite amount exactly when every step is an edge |
| Edges.PathCostPrefix | pathFinding.js:229-231 | with non-negative costs, extending a path never makes it cheaper |
| SeqUtil.FirstIndex | pathFinding.js:63-65 | the position returned holds `x`, and `x` does not occur before it |
| SeqUtil.Dedup | pathFinding.js:132-141 | pushing only the elements not pushed yet never gives a longer list, and gives only elements of the list walked |
| SeqUtil.DedupMembers | pathFinding.js:132-141 | pushing each element not pushed yet gives a list without repetitions that holds exactly the elements walked |
| SeqUtil.DedupSpec | pathFinding.js:132-141 | walking a list and pushing each element not pushed yet gives a list without repetitions, with the same members, in first-seen order |
| SeqUtil.Reverse | pathFinding.js:194 | the reversed list has the same length and mirrors the positions |
| SeqUtil.SameMembersSameLength | pathFinding.js:223-226 | two lists without repetitions and with the same members have the same length |
| Selection.MinDist | pathFinding.js:167-169 | `minDist` returns one of its two arguments, with a distance no larger than either; it returns `b` only when `b` is strictly closer than `a` |
| Selection.ReduceMin | pathFinding.js:167-178 | `reduce(minDist)` returns the initial vertex or one of the others |
| Selection.ReduceMinIsMin | pathFinding.js:167-178 | the vertex `reduce(minDist)` returns has a distance no larger than any other candidate's |
| Selection.ReduceMinPosition | pathFinding.js:178 | `reduce(minDist)` returns the initial vertex or the element at some position `k` that is strictly closer than the initial vertex and than every element before `k` |
| Selection.ReduceMinLeftmost | pathFinding.js:167-178 | because `minDist` keeps `a` when the distances are equal (`<=`), every candidate to the left of the result is strictly farther |
| Selection.Unmarked | pathFinding.js:176 | the `isNotMarked` filter never yields more vertices than it is given |
| Selection.UnmarkedMember | pathFinding.js:157-176 | a vertex survives the `isNotMarked` filter exactly when it is a vertex and not marked |
| Selection.UnmarkedShrinks | pathFinding.js:175-226 | marking an unmarked vertex removes at least one candidate, so the `while` loop ends |
| Selection.SmallestUnmarked | pathFinding.js:175-179 | a vertex returned is a vertex of the graph that is not marked yet |
| Selection.SelectedLeftmostAt | pathFinding.js:175-179 | an unmarked vertex at position `i` that is as close as the selected vertex means the selected vertex sits at position `i` or earlier |
| Selection.SmallestUnmarkedSpec | pathFinding.js:175-179 | `null` exactly when every vertex is marked; otherwise an unmarked vertex with the smallest distance among the unmarked ones, and the leftmost such vertex |
| Relaxation.Relax | pathFinding.js:227-235 | the `forEach` over the neighbours leaves the distance and predecessor tables of a relaxation round over `findReachableNeighbors(current)` |
| Relaxation.RelaxDistOneMore | pathFinding.js:228-234 | one step of the `forEach`: `distances[n]` becomes `distances[current] + findCost(current, n)` when that is strictly smaller, and nothing else changes |
| Relaxation.RelaxPrevOneMore | pathFinding.js:228-234 | one step of the `forEach`: `previous[n]` becomes `current` when the route through `current` is strictly shorter, and nothing else changes |
| Relaxation.RelaxedSpec | pathFinding.js:228-234 | in a round, a distance never grows, the current vertex's distance stays put, and a vertex's distance and predecessor change only when the route through `current` is strictly shorter, in which case the distance becomes that route's cost and the predecessor becomes `current`; afterwards no neighbour is farther than the route through `current` |
| Dijkstra.Crossing | pathFinding.js:223-235 | a walk that starts inside the marked set and ends outside it has a step leaving the marked set |
| Dijkstra.SelectedIsSettled | pathFinding.js:223-226 | the vertex selected next already has its final distance, the minimum over all walks from `from` |
| Dijkstra.StepKeepsInv | pathFinding.js:223-235 | marking the selected vertex and relaxing its neighbours keeps the loop invariant |
| Dijkstra.StepKeepsLinks | pathFinding.js:226-234 | after a round, every predecessor is marked, is joined to its vertex by an edge, ranks before it, and accounts for its distance; only `from` has a finite distance without a predecessor |
| Dijkstra.StepKeepsOrder | pathFinding.js:226-234 | after a round, marked vertices are no farther than unmarked ones, and every edge out of a marked vertex is relaxed |
| Dijkstra.StepKeepsFirstLinks | pathFinding.js:226-234 | after a round, every vertex marked before a vertex's predecessor offers a strictly longer route to that vertex, so on a tie the predecessor found first stays |
| Dijkstra.Advance | pathFinding.js:223-235 | the vertex selected is an unmarked vertex whose neighbours all have distances; marking it and relaxing its neighbours keeps the invariant and the first-predecessor property, and leaves fewer candidates |
| Dijkstra.RoundsStep | pathFinding.js:223-235 | when `findSmallestUnmarked` returns `u`, the rest of the loop is the loop run from the state with `u` marked and its neighbours relaxed |
| Dijkstra.RoundsDone | pathFinding.js:223 | when `findSmallestUnmarked` returns `null`, the loop stops with the tables as they are |
| Dijkstra.InitialInv | pathFinding.js:205-215 | every vertex starts at +infinity and `from` at 0, and these tables satisfy the loop invariant |
| Dijkstra.FinalFacts | pathFinding.js:223-237 | when `findSmallestUnmarked` returns `null`, every vertex was marked exactly once and every distance is the cost of a cheapest walk from `from` |
| Dijkstra.ComputeDistances | pathFinding.js:204-237 | after the loop, `distances[from]` is 0 and `from` has no predecessor. Every distance is at most the cost of any walk from `from`, and it is the cost of some walk when finite. Each predecessor link is an edge, and following it adds that edge's cost. A vertex with no predecessor other than `from` is at +infinity. The loop marks every vertex exactly once. Every vertex marked before a predecessor offers a strictly longer route, so ties keep the predecessor found first. The tables are the ones the rounds of the loop determine from the edges and `from` |
| Dijkstra.ReconstructPath | pathFinding.js:185-195 | `null` exactly when `to` has no predecessor; otherwise a list of at least two vertices, ending at `to`, starting at a vertex with no predecessor, in which each vertex is preceded by its predecessor |
| Dijkstra.ChainCost | pathFinding.js:185-195 | the rebuilt path starts at `from`, and each prefix costs exactly the final distance of its last vertex |
| Dijkstra.LinksDetermineWalk | pathFinding.js:185-195 | two walks back along the same `previous` table that end at the same vertex are the same walk, so the rebuilt path is a function of the table |
| Dijkstra.NoPredecessorUnreachable | pathFinding.js:186-231 | a target other than `from` with no predecessor cannot be reached from `from` |
| Dijkstra.FindPathIn | pathFinding.js:151-240 | `null` exactly when `to` is `from` or unreachable, which is when the final `previous` table has no entry for `to`; otherwise a path of edges from `from` to `to` whose cost is at most that of every walk from `from` to `to`, and which is the walk back along the final `previous` table |
| PathFinding.Graph.AddEdge | pathFinding.js:78-81 | exactly one edge `from -> to` with cost 1 is appended, and earlier edges are unchanged |
| PathFinding.Graph.FindPath | pathFinding.js:151-240 | the graph's `findPath`: `null` exactly when `to` is `from` or unreachable; otherwise a path of edges from `from` to `to` of minimum cost, the walk back along the final `previous` table |
| PathFinding.CircleEdges | pathFinding.js:249-258 | `n` edges; edge `i` goes from `i` to `(i + 1) % n` with cost 1 |
| PathFinding.Graph.GenerateCircle | pathFinding.js:249-258 | a new graph whose edges are `i -> (i + 1) % n` for `i` in `[0, n)`, in that order |
| PathFinding.CircleCost | pathFinding.js:249-258 | on the cycle, the only step out of `a` goes to `(a + 1) % n` and costs 1 |
| PathFinding.CircleStep | pathFinding.js:249-258 | every step along the cycle costs 1 and goes from `i` to `i + 1` before the wrap-around |
| PathFinding.CirclePathShape | pathFinding.js:249-258 | a path on the cycle that starts at 0 visits 0, 1, 2, ... in turn until it wraps around, and costs one unit per step |
| PathFinding.CountingPath | pathFinding.js:249-258 | `[0, 1, ..., k]` is a path on the cycle for `k < n` |
| PathFinding.FindPathOnCircle | pathFinding.js:249-258 | on the cycle of `n` vertices, the path found from 0 to `k` is `[0, 1, ..., k]` for `0 < k < n`, and there is none from 0 to 0 |
| PathFinding.AllPairs | pathFinding.js:290-299 | the candidate list has `rows * n` edges |
| PathFinding.CandidateEdges | pathFinding.js:290-299 | the nested loops push every ordered pair `(i, j)` with `i, j < nbVertices`, row by row |
| PathFinding.AllPairsSpec | pathFinding.js:290-299 | the candidates are pairwise distinct and are exactly the cost-1 edges between ids in range |
| PathFinding.SampledStep | pathFinding.js:301-305 | one draw adds `allEdges[id]` and removes it from the pool (`splice(id, 1)`) |
| PathFinding.SampledSpec | pathFinding.js:301-305 | drawing without replacement from a list without repetitions yields as many edges as draws, with no repetitions, all from the pool |
| PathFinding.RandomEdgesDistinct | pathFinding.js:286-305 | `generateRandom` adds exactly `nbEdges` cost-1 edges between ids in `[0, nbVertices)`, no two joining the same ordered pair |
| PathFinding.Graph.GenerateRandom | pathFinding.js:284-307 | throws exactly when `nbEdges > nbVertices²`, with both numbers; otherwise a new graph whose edges are the draws, in order, from the candidate list with each drawn edge removed |
| MainGraph.HasEdgeWeighted | main.js:22-25 | a `main.js` edge exists exactly when the same pair exists among the cost-1 edges the engine runs on |
| MainGraph.Neighbors | main.js:27-33 | never more neighbours than edges, and each neighbour is the `to` of an edge leaving `v` |
| MainGraph.NeighborsSpec | main.js:27-33 | the neighbours of `v` are the `to`s of the edges leaving `v`, in edge order, and exactly those |
| MainGraph.UnitCost | main.js:88-96 | every existing step costs 1 (so `distances[current] + 1` is the relaxation candidate), and a missing one costs +infinity |
| MainGraph.UnitPathCost | main.js:88-96 | paths are the same in both views of the edges, and a path of `k` vertices costs `k - 1` |
| MainGraph.EndpointsWeighted | main.js:110-124 | the endpoints seen by `findAllVertices` are those of the cost-1 edges |
| MainGraph.FindAllVertices | main.js:110-124 | the result has no repetitions, holds exactly the endpoints of the edges, and keeps first-seen order |
| MainGraph.Graph.AddEdge | main.js:22-25 | exactly one edge `(from, to)` is appended, and earlier edges are unchanged |
| MainGraph.Graph.FindPath | main.js:34-101 | `null` exactly when `to` is `from` or unreachable; otherwise a path from `from` to `to` with no more vertices than any other such path (the fewest hops), the walk back along the final `previous` table |
| MainGraph.Graph.GenerateCircle | main.js:128-134 | a new graph with `n` edges; edge `i` is `(i, (i + 1) % n)` |
| TieBreak.DiamondEndpoints | pathFinding.js:132-141 | the endpoints of the diamond, edge by edge, are 0, 1, 0, 2, 1, 3, 2, 3 |
| TieBreak.DiamondVertices | pathFinding.js:128-143 | `findAllVertices` on the diamond gives 0, 1, 2, 3 |
| TieBreak.DiamondNeighbors | pathFinding.js:93-99 | on the diamond the neighbours of 0 are 1 then 2, those of 1 and of 2 are 3, and 3 has none |
| TieBreak.DiamondCosts | pathFinding.js:107-113 | every diamond edge costs the common cost `c` |
| TieBreak.Select1 | pathFinding.js:175-179 | the first selection is 0, the only vertex at a finite distance |
| TieBreak.Round1 | pathFinding.js:227-235 | relaxing from 0 puts 1 and 2 at `c`, with 0 as their predecessor |
| TieBreak.Select2 | pathFinding.js:175-179 | with 0 marked, 1 and 2 are equally close and 1, listed first, is selected |
| TieBreak.Round2 | pathFinding.js:227-235 | relaxing from 1 puts 3 at `2c`, with 1 as its predecessor |
| TieBreak.Select3 | pathFinding.js:175-179 | with 0 and 1 marked, 2 is selected |
| TieBreak.Round3 | pathFinding.js:227-235 | relaxing from 2 offers 3 a route only as short as the one through 1, so neither table changes |
| TieBreak.Select4 | pathFinding.js:175-179 | with 0, 1 and 2 marked, 3 is selected |
| TieBreak.SelectNone | pathFinding.js:177 | with every vertex marked, `findSmallestUnmarked` returns `null` |
| TieBreak.Round4 | pathFinding.js:227-235 | relaxing from 3, which has no neighbours, changes nothing |
| TieBreak.Step1 | pathFinding.js:223-235 | the first round marks 0 and moves to its relaxed tables |
| TieBreak.Step2 | pathFinding.js:223-235 | the second round marks 1 and moves to its relaxed tables |
| TieBreak.Step3 | pathFinding.js:223-235 | the third round marks 2 and keeps the tables |
| TieBreak.Step4 | pathFinding.js:223-237 | the fourth round marks 3, keeps the tables, and ends the loop |
| TieBreak.DiamondTables | pathFinding.js:204-237 | from 0, the loop ends with distances 0, `c`, `c`, `2c` and `previous` = {1: 0, 2: 0, 3: 1} |
| TieBreak.DiamondPath | pathFinding.js:151-240 | for every common cost, `findPath(0, 3)` on the diamond returns [0, 1, 3] and not the equally cheap [0, 2, 3] |

## Left out

- Console output is not modelled: `output`, `prettyPrintDistances` and the "visiting" traces. They only log.
- String rendering is not modelled: every `toString`, `toGraphViz` / `toGrahViz` and `prettyPath`. They are presentation only.
- `showGraphViz` is not modelled. It accesses the page and calls an external drawing library.
- `random` and `randomInArray` are not modelled, because they are floating-point `Math.random`. `generateRandom` takes the drawn indices as its `picks` argument instead.
- The `generateRandom` of `main.js` is not modelled. It only draws random pairs, and has no guard and no stated contract.
- The demo script at the end of `main.js` is not modelled. It is a driver that prints.
- Vertex objects and their labels are not modelled. Vertices are their integer ids, and paths are lists of ids rather than lists of vertex objects.
- JavaScript key coercion (`'0'` and `0` as the same dictionary key) and `==` compared with `indexOf` are not modelled.
- IEEE floating-point numbers are not modelled. Distances are naturals extended with +infinity, and edge costs are naturals. The code only ever creates cost-1 edges.
- The distance initialisation loop (`forEach` / `for-in`) is written as one map comprehension.
- The `for` loop of `generateRandom` that builds `allEdges` is in a separate method, `PathFinding.CandidateEdges`, which `GenerateRandom` calls.
- The marking order is not returned. The loop's mutable `marked` list is local to `Dijkstra.ComputeDistances`. It is returned only as ghost values: `visits` (the marking order) and `rank` (each vertex's position in it).
- `MainGraph.Graph.FindPath` does not repeat the loop of `main.js`. It runs the shared engine on the `main.js` edges given cost 1. `MainGraph.UnitCost` shows that `distances[current] + findCost(current, n)` is then `distances[current] + 1`, as `main.js:90` writes it.
