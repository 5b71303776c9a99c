# Baseball elimination as max flow

A Dafny model of the `BaseballElimination` class (lab3). The class reads a division of
teams, with their wins, losses and remaining games and a matrix of games left between
each two teams. Once, at construction, it decides for every team whether the team is
mathematically eliminated from first place and, if so, which rivals eliminate it.

For each target team `T`, the elimination pass does four things:

- It builds a flow network. Vertex 0 is the source and vertex 1 the sink. Vertex `2 + i`
  is team `i`. Game vertices follow from `2 + n`, one for each pair `i < j` of rivals of
  `T`, in the order of the nested loop. Each game vertex gets an edge from the source
  with capacity `games[i][j]` and two edges of capacity `Integer.MAX_VALUE` to the two
  team vertices. `value` accumulates the games left among the rivals.
- It runs the trivial check over the rivals. A rival `R` with
  `wins(T) + remaining(T) - wins(R) < 0` eliminates `T` on its own and goes into the
  certificate. Every other rival gets an edge to the sink with that number as capacity.
- Without a trivial cause, it asks the max-flow solver. `T` is eliminated exactly when
  the flow value is below `value`.
- In that case, the certificate holds the rivals whose team vertex is on the source side
  of the minimum cut.

The results go into the team objects. Name-based accessors read them back, and each
accessor rejects an unknown name.

The project has four modules:

- `Int32` (int32.dfy) models Java's wrapping 32-bit `int` addition and subtraction.
- `Flow` (flow.dfy) holds the network vocabulary. The max-flow solver is a function
  parameter, `Solver`, that returns the flow value and the source side of the cut.
- `Reduction` (reduction.dfy) is the specification, as pure functions of a `Standings`
  value and the target index:
  - the pairs of rivals in loop order;
  - the network `NetworkOf`;
  - the Java-`int` quantities `StillWin` and `Value`;
  - the expected per-team result `Verdict`;
  - the lemmas about them.
- `Elimination` (elimination.dfy) holds the classes.
  - `Team` models the record with its mutable verdict and certificate.
  - `BaseballElimination` holds the constructor, the imperative elimination pass and the
    accessors.
  - Every method of the pass is proved against `Reduction`. After construction, every
    team holds `Verdict` for its own index, whatever order the name map yields the teams.

The max-flow computation of lines 123-130 of `lab3/src/BaseballElimination.java` is
`Flow.Solver`: any function from the network, source and sink to a `Flow.MaxFlow`, which
holds the two things the code reads back, `ff.value()` and the vertices `v` with
`ff.inCut(v)`. Every result about the verdict holds for every such function.

The certificate is an algs4 `Bag`. A `Bag` adds at its front and iterates from the
front, so the certificate is modelled as a sequence that grows by `[name] + certificate`.

## Model

| member | source | states |
|---|---|---|
| Elimination.Team.constructor | lab3/src/BaseballElimination.java:28-35 | a new team keeps its name and standings, is not eliminated and has an empty certificate |
| Elimination.BaseballElimination.Standings | lab3/src/BaseballElimination.java:48-51 | the division's arrays form well-formed standings: one entry per team, an n-by-n matrix, Java `int` values |
| Elimination.BaseballElimination.DistinctTeams | lab3/src/BaseballElimination.java:62-66 | since the name map sends each team's name back to that team's index, different indices hold different objects with different names |
| Elimination.BaseballElimination.constructor | lab3/src/BaseballElimination.java:53-76 | the teams, map and matrix hold the input records in order, and afterwards every team holds the verdict of `Reduction.Verdict` for its index |
| Elimination.BaseballElimination.MathematicalElimination | lab3/src/BaseballElimination.java:78-140 | whatever order the name set is visited in, on exit every team's flag and certificate equal `Verdict` for that team |
| Elimination.BaseballElimination.DecideTeam | lab3/src/BaseballElimination.java:81-137 | one target's pass writes only that target's team, and leaves there exactly `Verdict`: trivial elimination, or elimination when `ff.value() < value` with the cut certificate, or neither |
| Elimination.BaseballElimination.TrivialCheck | lab3/src/BaseballElimination.java:108-118 | the loop appends exactly `SinkEdges` and leaves the certificate as the rivals with `StillWin < 0`, in bag order; the flag is set exactly when some rival has `StillWin < 0`, exactly when the certificate is not empty |
| Elimination.BaseballElimination.CheckRival | lab3/src/BaseballElimination.java:109-117 | for one rival `i`: the cause flag is set exactly when `StillWin(i) < 0`, and then the rival's name goes in front of the certificate and no edge is added; otherwise the certificate is unchanged and the rival's sink edge is appended; either way the edges and certificate move on to rival `i + 1` and the elimination flag is untouched |
| Elimination.BaseballElimination.CutCertificate | lab3/src/BaseballElimination.java:128-134 | from an empty certificate, the loop adds exactly the rivals `v != teamIndex` with `2 + v` in the cut, latest first, and leaves the flag alone |
| Elimination.BaseballElimination.BuildGameEdges | lab3/src/BaseballElimination.java:85-106 | the nested pair loop produces exactly the game edges of `Pairs(n, teamIndex)`, `value` equal to their `int` total, and `round` ending at the vertex count `2 + (n-1)(n-2)/2 + n` |
| Elimination.BaseballElimination.GameRow | lab3/src/BaseballElimination.java:92-105 | the inner loop for row `i` extends the edges, total and round from the pairs before row `i` by exactly the pairs `(i, j)`, `i < j`, `j != teamIndex`, of that row |
| Elimination.BaseballElimination.AddGame | lab3/src/BaseballElimination.java:94-104 | one pair: `against(play1, play2)` is `games[i][j]`; the three edges and the `int` addition to `value` extend the edges and total from the pairs visited before to those pairs plus `(i, j)` |
| Elimination.BaseballElimination.NumberOfTeams | lab3/src/BaseballElimination.java:156-158 | the number of teams equals the number of names `teams()` returns |
| Elimination.BaseballElimination.Teams | lab3/src/BaseballElimination.java:160-162 | a name is returned exactly when some team has it |
| Elimination.BaseballElimination.NamesCount | lab3/src/BaseballElimination.java:160-162 | the first `k` teams have `k` distinct names, and all `n` teams' names are exactly the map's keys |
| Elimination.BaseballElimination.Wins | lab3/src/BaseballElimination.java:164-169 | an unknown name is an error naming it; otherwise the result is that team's wins |
| Elimination.BaseballElimination.Losses | lab3/src/BaseballElimination.java:171-176 | an unknown name is an error naming it; otherwise the result is that team's losses |
| Elimination.BaseballElimination.Remaining | lab3/src/BaseballElimination.java:178-183 | an unknown name is an error naming it; otherwise the result is that team's remaining games |
| Elimination.BaseballElimination.Against | lab3/src/BaseballElimination.java:185-197 | the first unknown name is the error reported; with both names known the result is `games[index1][index2]` |
| Elimination.BaseballElimination.IsEliminated | lab3/src/BaseballElimination.java:199-204 | an unknown name is an error naming it; otherwise the result is that team's stored flag |
| Elimination.BaseballElimination.CertificateOfElimination | lab3/src/BaseballElimination.java:206-216 | an unknown name is an error naming it; otherwise the result is `null` exactly when the stored certificate is empty, and the certificate itself when it is not |
| Elimination.BaseballElimination.CertificateMeansEliminated | lab3/src/BaseballElimination.java:206-216 | after the pass, a team with a non-null certificate is eliminated, a team that is not eliminated has a null certificate, and no certificate names its own team |
| Int32.Add | lab3/src/BaseballElimination.java:99 | Java `int` addition of two `int`s is an `int` |
| Int32.Sub | lab3/src/BaseballElimination.java:111 | Java `int` subtraction of two `int`s is an `int` |
| Int32.AddWraps | lab3/src/BaseballElimination.java:99 | Java `a + b` is the exact sum reduced modulo 2^32 into the `int` range |
| Int32.SubWraps | lab3/src/BaseballElimination.java:111 | Java `a - b` is the exact difference reduced modulo 2^32 into the `int` range |
| Int32.AddSub | lab3/src/BaseballElimination.java:111 | `wins(T) + remaining(T) - wins(R)` in `int`s is the exact value reduced modulo 2^32 |
| Int32.Wrap | lab3/src/BaseballElimination.java:99 | definition: the `int` a Java `int` expression stores for the exact value `x`, the unique value in the `int` range congruent to `x` modulo 2^32, and `x` itself when `x` is in range |
| Reduction.RowPairs | lab3/src/BaseballElimination.java:92-93 | definition: the pairs `(i, b)` the inner loop of row `i` visits before reaching `j`, in increasing `b`, skipping `b == teamIndex` |
| Reduction.PairsBefore | lab3/src/BaseballElimination.java:90-93 | definition: the pairs the nested loop visits while the outer index is below `i`, row after row, skipping the target's row |
| Reduction.Pairs | lab3/src/BaseballElimination.java:90-106 | definition: every pair the nested loop visits, in loop order; the `k`-th gets game vertex `2 + n + k` |
| Reduction.GamesLeft | lab3/src/BaseballElimination.java:97 | definition: `against(play1, play2)` read as the matrix entry of pair `p` |
| Reduction.GameTriple | lab3/src/BaseballElimination.java:98-102 | definition: the three edges added for one game vertex: from the source with the games left, and to the two team vertices with `Integer.MAX_VALUE` |
| Reduction.GameEdges | lab3/src/BaseballElimination.java:98-104 | definition: the edges added for a list of pairs, in order, the `k`-th pair at game vertex `base + k` (`round++`) |
| Reduction.SumGames | lab3/src/BaseballElimination.java:99 | definition: the exact sum of the games left over a list of pairs, the reference `value` is compared with |
| Reduction.Accumulate | lab3/src/BaseballElimination.java:88-99 | definition: `value = 0` followed by `value += toPlay` over a list of pairs, in `int` arithmetic |
| Reduction.StillWin | lab3/src/BaseballElimination.java:111 | definition: `wins(team) + remaining(team) - wins(rival)` in `int` arithmetic |
| Reduction.Value | lab3/src/BaseballElimination.java:88-99 | definition: `value` after the pair loop for the target |
| Reduction.VertexCount | lab3/src/BaseballElimination.java:82 | definition: `vertices = 2 + (n - 1) * (n - 2) / 2 + n` |
| Reduction.SinkEdges | lab3/src/BaseballElimination.java:108-117 | definition: the edges `2 + i -> 1` of capacity `stillWin` the rival loop adds, for each rival below `i` with `stillWin >= 0`, in order |
| Reduction.GameEdgesOf | lab3/src/BaseballElimination.java:85-106 | definition: the edges the pair loop adds for the target, game vertices from `2 + n` |
| Reduction.NetworkOf | lab3/src/BaseballElimination.java:82-117 | definition: the `FlowNetwork` handed to the solver: `vertices` vertices, the game edges followed by the sink edges |
| Reduction.ImpossibleToWin | lab3/src/BaseballElimination.java:108-113 | definition: the final `impossibleToWin`: some rival has `stillWin < 0` |
| Reduction.TrivialCause | lab3/src/BaseballElimination.java:112-114 | definition: the team vertices of the rivals with `stillWin < 0`, the ones whose names the rival loop adds |
| Reduction.Rivals | lab3/src/BaseballElimination.java:128-134 | definition: the bag after a loop `v = 0 .. i-1` that skips `teamIndex` and adds `teams[v].name` at the front when vertex `2 + v` is marked; the rival loop (line 114) and the cut loop are both of this form |
| Reduction.PairsBeforeNext | lab3/src/BaseballElimination.java:90-91 | loop step (outer pair loop): the outer loop adds row `i` to the pairs visited so far, and nothing for the target's row |
| Reduction.RowPairsBounds | lab3/src/BaseballElimination.java:92-93 | row `i` holds only pairs `(i, b)` with `i < b < j` and `b != teamIndex` |
| Reduction.RowPairsSorted | lab3/src/BaseballElimination.java:92 | row `i` is visited in strictly increasing second team |
| Reduction.RowPairsHas | lab3/src/BaseballElimination.java:92-93 | row `i` holds `(i, b)` for every `i < b < j` with `b != teamIndex` |
| Reduction.RowPairsCount | lab3/src/BaseballElimination.java:92-93 | row `i` has `j - i - 1` pairs, one fewer when the target lies strictly between |
| Reduction.PairsBeforeBounds | lab3/src/BaseballElimination.java:90-93 | every pair visited before row `i` is `(a, b)` with `a < i`, `a < b < n` and neither the target |
| Reduction.PairsBeforeSorted | lab3/src/BaseballElimination.java:90-93 | the visited pairs are in strictly increasing lexicographic order |
| Reduction.PairsBeforeHas | lab3/src/BaseballElimination.java:90-93 | every pair `a < b` of non-target teams with `a < i` has been visited before row `i` |
| Reduction.PairsBounds | lab3/src/BaseballElimination.java:90-93 | every pair of rivals lies within the teams, with first below second and neither the target |
| Reduction.PairsExactly | lab3/src/BaseballElimination.java:90-93 | the visited pairs are exactly the pairs `i < j` of teams other than the target, in lexicographic order, so with no repeats |
| Reduction.PairsBeforeCount | lab3/src/BaseballElimination.java:90-93 | twice the number of pairs before row `i` is the triangle count over the rows of the non-target teams so far |
| Reduction.PairsCount | lab3/src/BaseballElimination.java:82 | there are exactly `(n-1)(n-2)/2` pairs of rivals, the game vertex count the vertex formula reserves |
| Reduction.PairsInStandings | lab3/src/BaseballElimination.java:94-97 | every pair of rivals indexes an entry of the games matrix |
| Reduction.AccumulateWraps | lab3/src/BaseballElimination.java:88-99 | accumulating `value += toPlay` in `int`s gives the exact sum of the games reduced modulo 2^32 |
| Reduction.GameEdgesSnoc | lab3/src/BaseballElimination.java:98-104 | loop step (pair loop): one more pair appends its three edges for the next game vertex and adds its games to the exact sum |
| Reduction.GameStep | lab3/src/BaseballElimination.java:97-104 | loop step (pair loop body): the three `addEdge` calls and `value += toPlay` for a pair extend the game edges and the `int` total by that pair |
| Reduction.GameEdgesAt | lab3/src/BaseballElimination.java:98-104 | the `k`-th pair's vertex is `2 + n + k`; its source edge with `games[i][j]` and its two `Integer.MAX_VALUE` edges sit at `3k`, `3k+1`, `3k+2` |
| Reduction.GameEdgesSourceCapacity | lab3/src/BaseballElimination.java:98-99 | the capacity leaving the source over the game edges is the exact sum of the games of the pairs |
| Reduction.SinkEdgesNext | lab3/src/BaseballElimination.java:116 | loop step (rival loop): one step of the sink-edge loop appends the rival's edge exactly when it is not the target and `StillWin >= 0` |
| Reduction.TrivialCauseMember | lab3/src/BaseballElimination.java:111-112 | unfolding of `TrivialCause`: a team vertex is a trivial cause exactly when its team's `StillWin` is negative |
| Reduction.RivalsMembers | lab3/src/BaseballElimination.java:128-134 | the certificate loop adds exactly the names of the teams `v != teamIndex` whose vertex is marked |
| Reduction.RivalsDistinct | lab3/src/BaseballElimination.java:128-134 | with distinct names, a certificate never names the target and never names a team twice |
| Reduction.RivalsNext | lab3/src/BaseballElimination.java:128-134 | loop step (certificate loops): one step of a certificate loop puts the team's name in front exactly when it is not the target and its vertex is marked |
| Reduction.Verdict | lab3/src/BaseballElimination.java:120-136 | the expected result for a team; every result with a non-empty certificate is eliminated |
| Reduction.VerdictDistinct | lab3/src/BaseballElimination.java:109-134 | with distinct names, the verdict's certificate never names the team itself and has no repeats |
| Reduction.GameEdgesEnds | lab3/src/BaseballElimination.java:98-102 | every game edge runs from the source into a game vertex, or from a game vertex into a rival's team vertex |
| Reduction.SinkEdgesEnds | lab3/src/BaseballElimination.java:116 | every sink edge runs from a rival's team vertex into the sink |
| Reduction.NetworkLayout | lab3/src/BaseballElimination.java:82-104 | the vertex count is `2 + n + (n-1)(n-2)/2`; every edge endpoint is a vertex of the network and none is the target's team vertex |
| Reduction.GameVertices | lab3/src/BaseballElimination.java:90-106 | one game vertex `2 + n + k` per pair of rivals `(i, j)`, with its source edge of capacity `games[i][j]` and edges to `2+i` and `2+j` of capacity `Integer.MAX_VALUE`, three edges per pair |
| Reduction.SinkEdgesSound | lab3/src/BaseballElimination.java:108-117 | each sink edge belongs to a rival with `StillWin >= 0` and has that capacity |
| Reduction.SinkEdgesComplete | lab3/src/BaseballElimination.java:108-117 | each rival with `StillWin >= 0` has its sink edge with capacity `StillWin` |
| Reduction.SinkEdgeSound | lab3/src/BaseballElimination.java:108-117 | any edge of the network from a team vertex into the sink belongs to a rival with `StillWin >= 0` and has capacity `StillWin` |
| Reduction.SinkEdgeComplete | lab3/src/BaseballElimination.java:108-117 | a rival with `StillWin >= 0` has an edge into the sink in the network |
| Reduction.SinkEdgeIff | lab3/src/BaseballElimination.java:108-117 | team `v` has an edge into the sink exactly when `v` is a rival with `StillWin >= 0`, and its capacity is `StillWin` |
| Reduction.ValueIsSourceCapacity | lab3/src/BaseballElimination.java:88-99 | `value` is the total capacity leaving the source, reduced to an `int`, and equal to it when that total fits in an `int` |
| Reduction.StillWinExact | lab3/src/BaseballElimination.java:111 | for non-negative standings whose best total fits in an `int`, `stillWin` is exact and negative exactly when `wins(T) + remaining(T) < wins(R)` |
| Reduction.TrivialCertificate | lab3/src/BaseballElimination.java:108-114 | the trivial certificate holds exactly the names of the rivals with `StillWin < 0` |
| Reduction.TrivialNext | lab3/src/BaseballElimination.java:112-114 | loop step (rival loop): one step of the trivial loop puts rival `v` in front of the certificate exactly when `StillWin(v) < 0` |
| Reduction.TrivialStep | lab3/src/BaseballElimination.java:108-117 | loop step (rival loop body): one step of the trivial loop, on its three paths (target, negative, non-negative), moves both the certificate and the edges on to the next rival |
| Reduction.TrivialNonEmpty | lab3/src/BaseballElimination.java:112-114 | `impossibleToWin` is set exactly when the trivial certificate is not empty |
| Reduction.TrivialElimination | lab3/src/BaseballElimination.java:112-121 | when some rival has `StillWin < 0`, the team is eliminated and its certificate is exactly those rivals |
| Reduction.TieIsNotTrivial | lab3/src/BaseballElimination.java:112-116 | a rival that only ties the target's best total gets a sink edge of capacity 0 and is not in the trivial certificate |
| Reduction.FlowElimination | lab3/src/BaseballElimination.java:120-136 | without a trivial cause, the team is eliminated exactly when `ff.value() < value`; then the certificate is exactly the rivals whose vertex is in the cut; otherwise it is empty |

## Left out

- Reading the division from a file (lines 54-73) is replaced by a sequence of `TeamRecord`s
  in file order; `In`, parsing and malformed input are not modelled.
- `toString` of both classes, `main` and the `StdOut` printing (lines 37-45, 142-154 and
  218-234) are console output and are not modelled.
- The internals of algs4 `FordFulkerson`, `FlowNetwork` and `FlowEdge` are a library that
  is not part of this model. The solver is an arbitrary function from the network to a
  flow value and a set of source-side vertices. Nothing is claimed about augmenting paths,
  about min-cut optimality, or about whether a flow certificate is non-empty or minimal.
- algs4 `FlowEdge` stores capacities as `double`; here they are integers.
- Elimination.BaseballElimination.constructor: requires distinct team names. Java's
  `HashMap.put` (line 66) keeps only the last index of a repeated name; that division is
  not modelled.
- Elimination.BaseballElimination.constructor: requires each record's row to have `n`
  entries. In Java, `new int[number][number]` (line 57) gives every row `n` entries, and
  a file with too few numbers fails inside `In.readInt` (or misreads the next tokens).
  Those failures belong to parsing, which is not modelled.
- Elimination.BaseballElimination.constructor: with at least three teams, requires every
  entry `games[i][j]` with `i < j` to be non-negative. Each such entry becomes the
  capacity of `new FlowEdge(s, round, toPlay)` (line 98) for some target, and algs4
  `FlowEdge` throws on a negative capacity; that exception is not modelled. Entries on or
  below the diagonal, and every entry when there are at most two teams, may be negative,
  as in Java, where they are only returned by `against`.
- The vertex count `2 + (n-1)(n-2)/2 + n` is computed in unbounded integers. Java's `int`
  product `(n-1)(n-2)` first overflows at 46343 teams (46342 · 46341 > 2^31 - 1).
- The algs4 `Bag` is modelled as a sequence value. The accessor returns the certificate
  by value, not the team's own `Bag` object, so aliasing of that object is not modelled.
- `HashMap.keySet()` iteration order is not modelled: the elimination pass may visit the
  names in any order, and `Teams` returns the set of names.
- The Java pass is one method with inline loops. Here the loop bodies are separate
  methods (`CheckRival`, `GameRow`, `AddGame`), each stating what its step computes.
- `Int32.Add` and `Int32.Sub` make one 2^32 correction. That is exact for two `int`
  operands, the only case that occurs.
