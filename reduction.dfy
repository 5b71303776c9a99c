/** The per-team reduction of "is this team mathematically eliminated?" to a max-flow
    problem, stated as pure functions of the standings and a target team index:
    the pairs of rivals that become game vertices, the flow network with its vertex
    layout, the Java `int` quantities the code computes, and the verdict with its
    certificate that the code derives from the trivial check and the flow result. */
module Reduction {
  import Int32
  import opened Flow

  /** Team vertex `TeamBase + i` stands for team `i`; game vertices follow the team vertices. */
  const TeamBase: int := 2

  /** The standings of a division by team index: names, wins, losses, remaining games,
      and the matrix of games left between each two teams. */
  datatype Standings = Standings(
    names: seq<string>,
    win: seq<int>,
    losses: seq<int>,
    toPlay: seq<int>,
    games: seq<seq<int>>)
  {
    /** One entry per team everywhere, an n-by-n games matrix, and Java `int` values. */
    ghost predicate WellFormed() {
      var n := |names|;
      |win| == n && |losses| == n && |toPlay| == n && |games| == n &&
      (forall i :: 0 <= i < n ==> |games[i]| == n) &&
      (forall i :: 0 <= i < n ==> Int32.InRange(win[i]) && Int32.InRange(losses[i]) && Int32.InRange(toPlay[i])) &&
      (forall i, j :: 0 <= i < n && 0 <= j < n ==> Int32.InRange(games[i][j]))
    }

    /** No two teams share a name (the name-to-index map keeps only the last of equal names). */
    ghost predicate DistinctNames() {
      forall i, j :: 0 <= i < j < |names| ==> names[i] != names[j]
    }
  }

  // ---------------------------------------------------------------------------
  // Pairs of rivals, in the order the nested loop visits them

  /** The pairs `(i, b)` with `i < b < j` and `b != t`, in increasing `b`: what the inner
      loop over `j` has visited in row `i` before reaching `j`. */
  function RowPairs(t: int, i: int, j: int): seq<(int, int)>
    decreases j - i
  {
    if j <= i + 1 then []
    else RowPairs(t, i, j - 1) + (if j - 1 == t then [] else [(i, j - 1)])
  }

  /** The pairs the nested loop has visited while its outer index is below `i`
      (row `t` is skipped entirely). */
  function PairsBefore(n: int, t: int, i: nat): seq<(int, int)> {
    if i == 0 then []
    else PairsBefore(n, t, i - 1) + (if i - 1 == t then [] else RowPairs(t, i - 1, n))
  }

  /** The rows below `i + 1` are the rows below `i`, and then row `i` unless it is `t`'s. */
  lemma PairsBeforeNext(n: int, t: int, i: nat)
    ensures i != t ==> PairsBefore(n, t, i + 1) == PairsBefore(n, t, i) + RowPairs(t, i, n)
    ensures i == t ==> PairsBefore(n, t, i + 1) == PairsBefore(n, t, i)
  {
    assert PairsBefore(n, t, i) + [] == PairsBefore(n, t, i);
  }

  /** All pairs of rivals of team `t` among `n` teams, in loop order. */
  function Pairs(n: nat, t: int): seq<(int, int)> {
    PairsBefore(n, t, n)
  }

  /** Strict lexicographic order on pairs. */
  predicate PairLess(p: (int, int), q: (int, int)) {
    p.0 < q.0 || (p.0 == q.0 && p.1 < q.1)
  }

  /** Row `i` holds only pairs `(i, b)` with `i < b < j` and `b != t`. */
  lemma {:induction false} RowPairsBounds(t: int, i: int, j: int)
    ensures forall k :: 0 <= k < |RowPairs(t, i, j)| ==>
      RowPairs(t, i, j)[k].0 == i && i < RowPairs(t, i, j)[k].1 < j && RowPairs(t, i, j)[k].1 != t
    decreases j - i
  {
    if j > i + 1 {
      RowPairsBounds(t, i, j - 1);
    }
  }

  /** Row `i` is in strictly increasing order of the second team. */
  lemma {:induction false} RowPairsSorted(t: int, i: int, j: int)
    ensures forall k1, k2 :: 0 <= k1 < k2 < |RowPairs(t, i, j)| ==> RowPairs(t, i, j)[k1].1 < RowPairs(t, i, j)[k2].1
    decreases j - i
  {
    if j > i + 1 {
      RowPairsSorted(t, i, j - 1);
      RowPairsBounds(t, i, j - 1);
    }
  }

  /** Row `i` holds the pair `(i, b)` for each `i < b < j` with `b != t`. */
  lemma {:induction false} RowPairsHas(t: int, i: int, j: int, b: int)
    requires i < b < j && b != t
    ensures (i, b) in RowPairs(t, i, j)
    decreases j - i
  {
    if b < j - 1 {
      RowPairsHas(t, i, j - 1, b);
    }
  }

  /** Row `i` has `j - i - 1` pairs, less one when `t` lies strictly between. */
  lemma {:induction false} RowPairsCount(t: int, i: int, j: int)
    ensures |RowPairs(t, i, j)| == (if j <= i + 1 then 0 else j - i - 1 - (if i < t < j then 1 else 0))
    decreases j - i
  {
    if j > i + 1 {
      RowPairsCount(t, i, j - 1);
    }
  }

  /** Every visited pair is `(a, b)` with `0 <= a < i`, `a < b < n` and neither equal to `t`. */
  lemma {:induction false} PairsBeforeBounds(n: int, t: int, i: nat)
    ensures forall k :: 0 <= k < |PairsBefore(n, t, i)| ==>
      0 <= PairsBefore(n, t, i)[k].0 < i && PairsBefore(n, t, i)[k].0 != t &&
      PairsBefore(n, t, i)[k].0 < PairsBefore(n, t, i)[k].1 < n && PairsBefore(n, t, i)[k].1 != t
  {
    if i > 0 {
      PairsBeforeBounds(n, t, i - 1);
      RowPairsBounds(t, i - 1, n);
      var p0 := PairsBefore(n, t, i - 1);
      var r := if i - 1 == t then [] else RowPairs(t, i - 1, n);
      var p := p0 + r;
      assert PairsBefore(n, t, i) == p;
      forall k | 0 <= k < |p|
        ensures 0 <= p[k].0 < i && p[k].0 != t && p[k].0 < p[k].1 < n && p[k].1 != t
      {
        if k < |p0| {
          assert p[k] == p0[k];
        } else {
          assert p[k] == r[k - |p0|];
        }
      }
    }
  }

  /** The visited pairs are in strictly increasing lexicographic order. */
  lemma {:induction false} PairsBeforeSorted(n: int, t: int, i: nat)
    ensures forall k1, k2 :: 0 <= k1 < k2 < |PairsBefore(n, t, i)| ==>
      PairLess(PairsBefore(n, t, i)[k1], PairsBefore(n, t, i)[k2])
  {
    if i > 0 {
      PairsBeforeSorted(n, t, i - 1);
      PairsBeforeBounds(n, t, i - 1);
      RowPairsBounds(t, i - 1, n);
      RowPairsSorted(t, i - 1, n);
      var p0 := PairsBefore(n, t, i - 1);
      var r := if i - 1 == t then [] else RowPairs(t, i - 1, n);
      var p := p0 + r;
      assert PairsBefore(n, t, i) == p;
      forall k1, k2 | 0 <= k1 < k2 < |p|
        ensures PairLess(p[k1], p[k2])
      {
        if k2 < |p0| {
          assert p[k1] == p0[k1] && p[k2] == p0[k2];
        } else if k1 >= |p0| {
          assert p[k1] == r[k1 - |p0|] && p[k2] == r[k2 - |p0|];
        } else {
          assert p[k1] == p0[k1] && p[k2] == r[k2 - |p0|];
        }
      }
    }
  }

  /** Each pair `a < b` of teams other than `t` with `a < i` has been visited. */
  lemma {:induction false} PairsBeforeHas(n: int, t: int, i: nat, a: int, b: int)
    requires 0 <= a < i && a < b < n && a != t && b != t
    ensures (a, b) in PairsBefore(n, t, i)
  {
    var p0 := PairsBefore(n, t, i - 1);
    var r := if i - 1 == t then [] else RowPairs(t, i - 1, n);
    assert PairsBefore(n, t, i) == p0 + r;
    if a < i - 1 {
      PairsBeforeHas(n, t, i - 1, a, b);
      assert (a, b) in p0;
    } else {
      RowPairsHas(t, a, n, b);
      assert (a, b) in r;
    }
  }

  /** Every pair of rivals is `(a, b)` with `0 <= a < b < n` and neither equal to `t`. */
  lemma PairsBounds(n: nat, t: int)
    ensures forall k :: 0 <= k < |Pairs(n, t)| ==>
      0 <= Pairs(n, t)[k].0 < Pairs(n, t)[k].1 < n && Pairs(n, t)[k].0 != t && Pairs(n, t)[k].1 != t
  {
    PairsBeforeBounds(n, t, n);
  }

  /** The pairs are exactly the pairs `i < j` of teams other than `t`, in strictly
      increasing lexicographic order, so each such pair occurs once. */
  lemma PairsExactly(n: nat, t: int)
    ensures forall p :: p in Pairs(n, t) <==> 0 <= p.0 < p.1 < n && p.0 != t && p.1 != t
    ensures forall k1, k2 :: 0 <= k1 < k2 < |Pairs(n, t)| ==> PairLess(Pairs(n, t)[k1], Pairs(n, t)[k2])
  {
    PairsBounds(n, t);
    PairsBeforeSorted(n, t, n);
    var ps := Pairs(n, t);
    forall p | p in ps
      ensures 0 <= p.0 < p.1 < n && p.0 != t && p.1 != t
    {
      var k :| 0 <= k < |ps| && ps[k] == p;
    }
    forall p: (int, int) | 0 <= p.0 < p.1 < n && p.0 != t && p.1 != t
      ensures p in ps
    {
      PairsBeforeHas(n, t, n, p.0, p.1);
      assert (p.0, p.1) == p;
    }
  }

  /** Twice the number of pairs in the first `c` rows of the `m` rivals' triangle. */
  function TriangleTwice(m: int, c: int): int {
    c * (2 * m - c - 1)
  }

  lemma TriangleStep(m: int, c: int)
    ensures TriangleTwice(m, c + 1) == TriangleTwice(m, c) + 2 * (m - c - 1)
  {
  }

  lemma {:induction false} PairsBeforeCount(n: int, t: int, i: nat)
    requires 0 <= t < n && i <= n
    ensures 2 * |PairsBefore(n, t, i)| == TriangleTwice(n - 1, if i <= t then i else i - 1)
  {
    if i > 0 {
      PairsBeforeCount(n, t, i - 1);
      var a := i - 1;
      RowPairsCount(t, a, n);
      if a < t {
        TriangleStep(n - 1, a);
      } else if a > t {
        TriangleStep(n - 1, a - 1);
      }
    }
  }

  /** Exactly `(n-1)(n-2)/2` game vertices: one per pair of the other `n - 1` teams. */
  lemma PairsCount(n: nat, t: int)
    requires 0 <= t < n
    ensures |Pairs(n, t)| == (n - 1) * (n - 2) / 2
  {
    PairsBeforeCount(n, t, n);
    assert TriangleTwice(n - 1, n - 1) == (n - 1) * (n - 2);
  }

  // ---------------------------------------------------------------------------
  // Game edges and the total of their capacities

  /** Every pair indexes an entry of the matrix. */
  predicate PairsIn(games: seq<seq<int>>, ps: seq<(int, int)>) {
    forall k :: 0 <= k < |ps| ==> 0 <= ps[k].0 < |games| && 0 <= ps[k].1 < |games[ps[k].0]|
  }

  /** The rivals' pairs of a well-formed division index its games matrix. */
  lemma PairsInStandings(s: Standings, t: int)
    requires s.WellFormed()
    ensures PairsIn(s.games, Pairs(|s.names|, t))
  {
    PairsBounds(|s.names|, t);
  }

  /** Entry `p` of the games matrix; pairs of a division always index it (`PairsInStandings`),
      and the value outside the matrix is never used. */
  function GamesLeft(games: seq<seq<int>>, p: (int, int)): int {
    if 0 <= p.0 < |games| && 0 <= p.1 < |games[p.0]| then games[p.0][p.1] else 0
  }

  /** The three edges of game vertex `v` for pair `p`: from the source with the number of
      games left between the two teams, and to each of the two team vertices with
      capacity `Integer.MAX_VALUE`. */
  function GameTriple(games: seq<seq<int>>, p: (int, int), v: int): seq<FlowEdge> {
    [FlowEdge(Source, v, GamesLeft(games, p)),
     FlowEdge(v, TeamBase + p.0, Int32.Max),
     FlowEdge(v, TeamBase + p.1, Int32.Max)]
  }

  /** The edges added for the pairs `ps`, the k-th pair getting game vertex `base + k`. */
  function GameEdges(games: seq<seq<int>>, ps: seq<(int, int)>, base: int): seq<FlowEdge> {
    if |ps| == 0 then []
    else
      var k := |ps| - 1;
      GameEdges(games, ps[..k], base) + GameTriple(games, ps[k], base + k)
  }

  /** Sum of the games left over the pairs `ps`, as exact integers. */
  function SumGames(games: seq<seq<int>>, ps: seq<(int, int)>): int {
    if |ps| == 0 then 0
    else
      var k := |ps| - 1;
      SumGames(games, ps[..k]) + GamesLeft(games, ps[k])
  }

  /** Java `value += toPlay` over the pairs `ps`, in `int` arithmetic. */
  function Accumulate(games: seq<seq<int>>, ps: seq<(int, int)>): int {
    if |ps| == 0 then 0
    else
      var k := |ps| - 1;
      Int32.Add(Accumulate(games, ps[..k]), GamesLeft(games, ps[k]))
  }

  /** With every entry of `games` an `int`, the accumulated `int` is the exact sum of the
      games reduced modulo 2^32 into the range. */
  lemma {:induction false} AccumulateWraps(games: seq<seq<int>>, ps: seq<(int, int)>)
    requires forall i, j :: 0 <= i < |games| && 0 <= j < |games[i]| ==> Int32.InRange(games[i][j])
    ensures Accumulate(games, ps) == Int32.Wrap(SumGames(games, ps))
    decreases |ps|
  {
    if |ps| > 0 {
      var k := |ps| - 1;
      AccumulateWraps(games, ps[..k]);
      Int32.AddWraps(Accumulate(games, ps[..k]), GamesLeft(games, ps[k]));
      Int32.WrapOfSum(SumGames(games, ps[..k]), GamesLeft(games, ps[k]));
    }
  }

  /** Visiting one more pair appends its three edges and adds its games to the sum. */
  lemma GameEdgesSnoc(games: seq<seq<int>>, ps: seq<(int, int)>, p: (int, int), base: int)
    ensures GameEdges(games, ps + [p], base) == GameEdges(games, ps, base) + GameTriple(games, p, base + |ps|)
    ensures SumGames(games, ps + [p]) == SumGames(games, ps) + GamesLeft(games, p)
  {
    assert (ps + [p])[..|ps|] == ps;
  }

  /** One step of the pair loop at pair `p`, visited after the pairs `qs`: its three edges,
      appended one at a time for game vertex `base + |qs|`, and its games, added to the `int`
      accumulator, extend the game edges and the `int` total of `qs` to those of `qs + [p]`. */
  lemma GameStep(games: seq<seq<int>>, qs: seq<(int, int)>, p: (int, int), base: int,
                 edges: seq<FlowEdge>, value: int)
    requires 0 <= p.0 < |games| && 0 <= p.1 < |games[p.0]|
    requires edges == GameEdges(games, qs, base) && value == Accumulate(games, qs)
    ensures edges + [FlowEdge(Source, base + |qs|, games[p.0][p.1])]
                  + [FlowEdge(base + |qs|, TeamBase + p.0, Int32.Max)]
                  + [FlowEdge(base + |qs|, TeamBase + p.1, Int32.Max)]
            == GameEdges(games, qs + [p], base)
    ensures Int32.Add(value, games[p.0][p.1]) == Accumulate(games, qs + [p])
  {
    GameEdgesSnoc(games, qs, p, base);
  }

  /** The k-th pair's game vertex is `base + k`, and its three edges sit at `3k .. 3k+2`. */
  lemma {:induction false} GameEdgesAt(games: seq<seq<int>>, ps: seq<(int, int)>, base: int)
    requires PairsIn(games, ps)
    ensures |GameEdges(games, ps, base)| == 3 * |ps|
    ensures forall k :: 0 <= k < |ps| ==>
      GameEdges(games, ps, base)[3 * k] == FlowEdge(Source, base + k, games[ps[k].0][ps[k].1]) &&
      GameEdges(games, ps, base)[3 * k + 1] == FlowEdge(base + k, TeamBase + ps[k].0, Int32.Max) &&
      GameEdges(games, ps, base)[3 * k + 2] == FlowEdge(base + k, TeamBase + ps[k].1, Int32.Max)
    decreases |ps|
  {
    if ps != [] {
      var last := |ps| - 1;
      var prefix := ps[..last];
      GameEdgesAt(games, prefix, base);
      var g := GameEdges(games, ps, base);
      assert g == GameEdges(games, prefix, base) + GameTriple(games, ps[last], base + last);
      forall k | 0 <= k < |ps|
        ensures g[3 * k] == FlowEdge(Source, base + k, games[ps[k].0][ps[k].1]) &&
          g[3 * k + 1] == FlowEdge(base + k, TeamBase + ps[k].0, Int32.Max) &&
          g[3 * k + 2] == FlowEdge(base + k, TeamBase + ps[k].1, Int32.Max)
      {
        if k < last {
          assert prefix[k] == ps[k];
        }
      }
    }
  }

  /** When game vertices are numbered away from the source, the capacity leaving the
      source is exactly the sum of the games over the pairs. */
  lemma {:induction false} GameEdgesSourceCapacity(games: seq<seq<int>>, ps: seq<(int, int)>, base: int)
    requires base > Source
    ensures SourceCapacity(GameEdges(games, ps, base)) == SumGames(games, ps)
    decreases |ps|
  {
    if ps != [] {
      var k := |ps| - 1;
      GameEdgesSourceCapacity(games, ps[..k], base);
      var tr := GameTriple(games, ps[k], base + k);
      SourceCapacityAppend(GameEdges(games, ps[..k], base), tr);
      assert SourceCapacity(tr) == GamesLeft(games, ps[k]) by {
        var one, two := tr[..1], tr[..2];
        assert one[..0] == [];
        assert SourceCapacity(one) == GamesLeft(games, ps[k]);
        assert two[..1] == one;
        assert SourceCapacity(two) == SourceCapacity(one);
        assert SourceCapacity(tr) == SourceCapacity(two);
      }
    }
  }

  // ---------------------------------------------------------------------------
  // The quantities the code computes for target team t

  /** Java `wins(T) + remaining(T) - wins(R)`: how many more games than rival `v`
      team `t` can still end up winning, in `int` arithmetic. */
  function StillWin(s: Standings, t: int, v: int): int
    requires s.WellFormed() && 0 <= t < |s.names| && 0 <= v < |s.names|
  {
    Int32.Sub(Int32.Add(s.win[t], s.toPlay[t]), s.win[v])
  }

  /** Java `int` accumulation of `value`: the games left among the rivals of `t`. */
  function Value(s: Standings, t: int): int
    requires s.WellFormed() && 0 <= t < |s.names|
  {
    Accumulate(s.games, Pairs(|s.names|, t))
  }

  /** The vertex count `2 + (n-1)(n-2)/2 + n`. */
  function VertexCount(n: int): int {
    2 + (n - 1) * (n - 2) / 2 + n
  }

  /** The team-to-sink edges added for rivals below `i`: one of capacity `StillWin` for
      each rival that can still at least tie it. */
  function SinkEdges(s: Standings, t: int, i: nat): seq<FlowEdge>
    requires s.WellFormed() && 0 <= t < |s.names| && i <= |s.names|
  {
    if i == 0 then []
    else
      var v := i - 1;
      SinkEdges(s, t, v) +
        (if v != t && StillWin(s, t, v) >= 0 then [FlowEdge(TeamBase + v, Sink, StillWin(s, t, v))] else [])
  }

  /** One step of the sink-edge loop at `v`: the edge of rival `v` is appended when `t` can
      still reach its wins, and nothing is appended otherwise. */
  lemma SinkEdgesNext(s: Standings, t: int, v: nat, prefix: seq<FlowEdge>, edges: seq<FlowEdge>)
    requires s.WellFormed() && 0 <= t < |s.names| && v < |s.names|
    requires edges == prefix + SinkEdges(s, t, v)
    ensures v != t && StillWin(s, t, v) >= 0 ==>
      edges + [FlowEdge(TeamBase + v, Sink, StillWin(s, t, v))] == prefix + SinkEdges(s, t, v + 1)
    ensures !(v != t && StillWin(s, t, v) >= 0) ==> edges == prefix + SinkEdges(s, t, v + 1)
  {
    assert SinkEdges(s, t, v) + [] == SinkEdges(s, t, v);
  }

  /** The game edges of the network for target team `t`: game vertices numbered from `2 + n`. */
  function GameEdgesOf(s: Standings, t: int): seq<FlowEdge> {
    GameEdges(s.games, Pairs(|s.names|, t), TeamBase + |s.names|)
  }

  /** The network built for target team `t`: the game edges followed by the sink edges. */
  function NetworkOf(s: Standings, t: int): FlowNetwork
    requires s.WellFormed() && 0 <= t < |s.names|
  {
    var n := |s.names|;
    FlowNetwork(VertexCount(n), GameEdgesOf(s, t) + SinkEdges(s, t, n))
  }

  /** Some rival alone already has more wins than `t` can reach. */
  predicate ImpossibleToWin(s: Standings, t: int)
    requires s.WellFormed() && 0 <= t < |s.names|
  {
    exists v :: 0 <= v < |s.names| && v != t && StillWin(s, t, v) < 0
  }

  // ---------------------------------------------------------------------------
  // Certificates and the verdict

  /** The names a certificate bag holds after the loop over `v < i` added `names[v]` for
      every `v != t` whose team vertex `TeamBase + v` is in `keep`. A bag adds at its
      front and iterates from it, so the latest addition comes first. */
  function Rivals(names: seq<string>, t: int, keep: set<int>, i: nat): seq<string>
    requires i <= |names|
  {
    if i == 0 then []
    else
      var v := i - 1;
      (if v != t && TeamBase + v in keep then [names[v]] else []) + Rivals(names, t, keep, v)
  }

  /** `x` is the team vertex of a rival that alone eliminates target `t`. */
  predicate TrivialVertex(s: Standings, t: int, x: int)
    requires s.WellFormed() && 0 <= t < |s.names|
  {
    TeamBase <= x < TeamBase + |s.names| && StillWin(s, t, x - TeamBase) < 0
  }

  /** The team vertices of the rivals that alone eliminate target `t`. */
  function TrivialCause(s: Standings, t: int): set<int>
    requires s.WellFormed() && 0 <= t < |s.names|
  {
    set x | TeamBase <= x < TeamBase + |s.names| && TrivialVertex(s, t, x)
  }

  /** Team `v`'s vertex is in the trivial cause exactly when `v` alone has more wins than
      `t` can reach. */
  lemma TrivialCauseMember(s: Standings, t: int, v: int)
    requires s.WellFormed() && 0 <= t < |s.names|
    ensures (TeamBase + v in TrivialCause(s, t)) <==> (0 <= v < |s.names| && StillWin(s, t, v) < 0)
  {
    assert TrivialVertex(s, t, TeamBase + v) <==> (0 <= v < |s.names| && StillWin(s, t, v) < 0) by {
      assert TeamBase + v - TeamBase == v;
    }
  }

  /** What the code stores for one team: the elimination flag and the certificate bag. */
  datatype TeamResult = TeamResult(isEliminated: bool, certificate: seq<string>)

  lemma {:induction false} RivalsMembers(names: seq<string>, t: int, keep: set<int>, i: nat)
    requires i <= |names|
    ensures forall x :: x in Rivals(names, t, keep, i) <==>
      exists v :: 0 <= v < i && v != t && TeamBase + v in keep && names[v] == x
  {
    if i > 0 {
      RivalsMembers(names, t, keep, i - 1);
    }
  }

  /** With distinct names a certificate never repeats a name, and never names the target. */
  lemma {:induction false} RivalsDistinct(names: seq<string>, t: int, keep: set<int>, i: nat)
    requires i <= |names|
    requires forall a, b :: 0 <= a < b < |names| ==> names[a] != names[b]
    ensures 0 <= t < |names| ==> names[t] !in Rivals(names, t, keep, i)
    ensures var r := Rivals(names, t, keep, i); forall k1, k2 :: 0 <= k1 < k2 < |r| ==> r[k1] != r[k2]
  {
    RivalsMembers(names, t, keep, i);
    if i > 0 {
      var v := i - 1;
      RivalsNext(names, t, keep, v);
      RivalsDistinct(names, t, keep, v);
      RivalsMembers(names, t, keep, v);
      var rest := Rivals(names, t, keep, v);
      if v != t && TeamBase + v in keep {
        assert names[v] !in rest;
        ConsDistinct(names[v], rest);
      }
    }
  }

  /** A name put in front of a list without repeats that does not hold it yields a list
      without repeats. */
  lemma ConsDistinct(x: string, rest: seq<string>)
    requires x !in rest
    requires forall k1, k2 :: 0 <= k1 < k2 < |rest| ==> rest[k1] != rest[k2]
    ensures var r := [x] + rest; forall k1, k2 :: 0 <= k1 < k2 < |r| ==> r[k1] != r[k2]
  {
    var r := [x] + rest;
    forall k1, k2 | 0 <= k1 < k2 < |r|
      ensures r[k1] != r[k2]
    {
      if k1 == 0 {
        assert r[k2] == rest[k2 - 1] && rest[k2 - 1] in rest;
      } else {
        assert r[k1] == rest[k1 - 1] && r[k2] == rest[k2 - 1];
      }
    }
  }

  /** One step of a certificate loop at `v`: `names[v]` goes to the front of the bag when
      it is kept, and otherwise the bag stays as it is. */
  lemma RivalsNext(names: seq<string>, t: int, keep: set<int>, v: nat)
    requires v < |names|
    ensures v != t && TeamBase + v in keep ==> Rivals(names, t, keep, v + 1) == [names[v]] + Rivals(names, t, keep, v)
    ensures !(v != t && TeamBase + v in keep) ==> Rivals(names, t, keep, v + 1) == Rivals(names, t, keep, v)
  {
    assert [] + Rivals(names, t, keep, v) == Rivals(names, t, keep, v);
  }

  /** The verdict the code reaches for target `t`, given the max-flow solver: trivially
      eliminated by every rival that has more wins than `t` can reach; otherwise
      eliminated exactly when the maximum flow falls short of the games left among the
      rivals, with the rivals on the source side of the minimum cut as certificate;
      otherwise not eliminated with an empty certificate. */
  function Verdict(s: Standings, t: int, solver: Solver): (r: TeamResult)
    requires s.WellFormed() && 0 <= t < |s.names|
    ensures r.certificate != [] ==> r.isEliminated
  {
    var n := |s.names|;
    if ImpossibleToWin(s, t) then
      TeamResult(true, Rivals(s.names, t, TrivialCause(s, t), n))
    else
      var ff := solver(NetworkOf(s, t), Source, Sink);
      if ff.value < Value(s, t) then
        TeamResult(true, Rivals(s.names, t, ff.inCut, n))
      else
        TeamResult(false, [])
  }

  /** With distinct names, a certificate never names the team it is about and never
      names a rival twice. */
  lemma VerdictDistinct(s: Standings, t: int, solver: Solver)
    requires s.WellFormed() && s.DistinctNames() && 0 <= t < |s.names|
    ensures s.names[t] !in Verdict(s, t, solver).certificate
    ensures var c := Verdict(s, t, solver).certificate; forall k1, k2 :: 0 <= k1 < k2 < |c| ==> c[k1] != c[k2]
  {
    var n := |s.names|;
    RivalsDistinct(s.names, t, TrivialCause(s, t), n);
    RivalsDistinct(s.names, t, solver(NetworkOf(s, t), Source, Sink).inCut, n);
  }

  // ---------------------------------------------------------------------------
  // Properties of the network

  /** A game edge of the `count` game vertices numbered from `base`: either from the
      source into a game vertex, or from a game vertex into the vertex of a team other than `t`. */
  predicate GameEdgeEnds(e: FlowEdge, base: int, count: int, n: int, t: int) {
    (e.from == Source && base <= e.to < base + count) ||
    (base <= e.from < base + count && TeamBase <= e.to < TeamBase + n && e.to != TeamBase + t)
  }

  /** Where the game edges start and end. */
  lemma {:induction false} GameEdgesEnds(games: seq<seq<int>>, ps: seq<(int, int)>, base: int, n: int, t: int)
    requires PairsIn(games, ps) && base > Source
    requires forall k :: 0 <= k < |ps| ==> 0 <= ps[k].0 < n && 0 <= ps[k].1 < n && ps[k].0 != t && ps[k].1 != t
    ensures forall e :: e in GameEdges(games, ps, base) ==> GameEdgeEnds(e, base, |ps|, n, t)
    decreases |ps|
  {
    if ps != [] {
      var last := |ps| - 1;
      var prefix := ps[..last];
      GameEdgesEnds(games, prefix, base, n, t);
      var a := GameEdges(games, prefix, base);
      var tr := GameTriple(games, ps[last], base + last);
      assert GameEdges(games, ps, base) == a + tr;
      forall e: FlowEdge | e in a + tr
        ensures GameEdgeEnds(e, base, |ps|, n, t)
      {
        if e in a {
          assert GameEdgeEnds(e, base, |prefix|, n, t);
        } else {
          assert e == tr[0] || e == tr[1] || e == tr[2];
        }
      }
    }
  }

  /** Where the sink edges start and end: from the vertex of a rival `v != t` into the sink. */
  lemma {:induction false} SinkEdgesEnds(s: Standings, t: int, i: nat)
    requires s.WellFormed() && 0 <= t < |s.names| && i <= |s.names|
    ensures forall e :: e in SinkEdges(s, t, i) ==>
      e.to == Sink && TeamBase <= e.from < TeamBase + i && e.from != TeamBase + t
  {
    if i > 0 {
      SinkEdgesEnds(s, t, i - 1);
    }
  }

  /** Vertex layout: source 0, sink 1, team vertices `[2, 2+n)`, game vertices
      `[2+n, 2+n+(n-1)(n-2)/2)`, which is the vertex count; every edge endpoint is a vertex
      of the network, and none is the target's own team vertex. */
  lemma NetworkLayout(s: Standings, t: int)
    requires s.WellFormed() && 0 <= t < |s.names|
    ensures NetworkOf(s, t).vertices == TeamBase + |s.names| + |Pairs(|s.names|, t)|
    ensures forall e :: e in NetworkOf(s, t).edges ==>
      0 <= e.from < NetworkOf(s, t).vertices && 0 <= e.to < NetworkOf(s, t).vertices &&
      e.from != TeamBase + t && e.to != TeamBase + t
  {
    var n := |s.names|;
    var ps := Pairs(n, t);
    PairsCount(n, t);
    PairsBounds(n, t);
    PairsInStandings(s, t);
    var g := GameEdges(s.games, ps, TeamBase + n);
    var sinks := SinkEdges(s, t, n);
    GameEdgesEnds(s.games, ps, TeamBase + n, n, t);
    SinkEdgesEnds(s, t, n);
    var net := NetworkOf(s, t);
    assert net.edges == g + sinks;
    assert net.vertices == TeamBase + n + |ps|;
    forall e: FlowEdge | e in g + sinks
      ensures 0 <= e.from < net.vertices && 0 <= e.to < net.vertices &&
        e.from != TeamBase + t && e.to != TeamBase + t
    {
      if e in g {
        assert GameEdgeEnds(e, TeamBase + n, |ps|, n, t);
      }
    }
  }

  /** One game vertex per pair of rivals: the k-th pair `(i, j)` gets vertex `2 + n + k`,
      an edge into it from the source with capacity `games[i][j]`, and edges out of it to
      `2 + i` and `2 + j` with capacity `Integer.MAX_VALUE`; the game edges come first,
      three per pair, followed by the sink edges. */
  lemma GameVertices(s: Standings, t: int)
    requires s.WellFormed() && 0 <= t < |s.names|
    ensures PairsIn(s.games, Pairs(|s.names|, t))
    ensures var n := |s.names|; var net := NetworkOf(s, t); var ps := Pairs(n, t);
      |net.edges| == 3 * |ps| + |SinkEdges(s, t, n)| &&
      forall k :: 0 <= k < |ps| ==>
        net.edges[3 * k] == FlowEdge(Source, TeamBase + n + k, s.games[ps[k].0][ps[k].1]) &&
        net.edges[3 * k + 1] == FlowEdge(TeamBase + n + k, TeamBase + ps[k].0, Int32.Max) &&
        net.edges[3 * k + 2] == FlowEdge(TeamBase + n + k, TeamBase + ps[k].1, Int32.Max)
  {
    var n := |s.names|;
    PairsInStandings(s, t);
    GameEdgesAt(s.games, Pairs(n, t), TeamBase + n);
  }

  /** `e` is the sink edge of a rival of `t` that can still at least tie `t`: from its
      vertex into the sink, with capacity `StillWin(v) >= 0`. */
  predicate SinkEdgeOk(s: Standings, t: int, e: FlowEdge)
    requires s.WellFormed() && 0 <= t < |s.names|
  {
    e.to == Sink && TeamBase <= e.from < TeamBase + |s.names| && e.from != TeamBase + t &&
    e.capacity == StillWin(s, t, e.from - TeamBase) && e.capacity >= 0
  }

  /** Each sink edge is the edge of a rival that can still at least tie `t`. */
  lemma {:induction false} SinkEdgesSound(s: Standings, t: int, i: nat)
    requires s.WellFormed() && 0 <= t < |s.names| && i <= |s.names|
    ensures forall k :: 0 <= k < |SinkEdges(s, t, i)| ==> SinkEdgeOk(s, t, SinkEdges(s, t, i)[k])
  {
    if i > 0 {
      var v := i - 1;
      SinkEdgesSound(s, t, v);
      var prev := SinkEdges(s, t, v);
      SinkEdgesNext(s, t, v, [], prev);
      if v != t && StillWin(s, t, v) >= 0 {
        var x := FlowEdge(TeamBase + v, Sink, StillWin(s, t, v));
        assert SinkEdgeOk(s, t, x) by {
          assert x.from - TeamBase == v;
        }
        forall k | 0 <= k < |prev + [x]|
          ensures SinkEdgeOk(s, t, (prev + [x])[k])
        {
          if k < |prev| {
            assert (prev + [x])[k] == prev[k];
          }
        }
      }
    }
  }

  /** Each rival `v != t` below `i` that can still at least tie `t` has its sink edge. */
  lemma {:induction false} SinkEdgesComplete(s: Standings, t: int, i: nat)
    requires s.WellFormed() && 0 <= t < |s.names| && i <= |s.names|
    ensures forall v :: 0 <= v < i && v != t && StillWin(s, t, v) >= 0 ==>
      FlowEdge(TeamBase + v, Sink, StillWin(s, t, v)) in SinkEdges(s, t, i)
  {
    if i > 0 {
      var v := i - 1;
      SinkEdgesComplete(s, t, v);
      var last := if v != t && StillWin(s, t, v) >= 0 then [FlowEdge(TeamBase + v, Sink, StillWin(s, t, v))] else [];
      assert SinkEdges(s, t, i) == SinkEdges(s, t, v) + last;
      forall w | 0 <= w < i && w != t && StillWin(s, t, w) >= 0
        ensures FlowEdge(TeamBase + w, Sink, StillWin(s, t, w)) in SinkEdges(s, t, v) + last
      {
        if w == v {
          assert last[0] == FlowEdge(TeamBase + w, Sink, StillWin(s, t, w));
        }
      }
    }
  }

  /** `e` is an edge from the vertex of team `v` into the sink. */
  predicate IsSinkEdgeOf(e: FlowEdge, v: int) {
    e.from == TeamBase + v && e.to == Sink
  }

  /** Every edge from rival `v`'s vertex into the sink has `v != t`, `StillWin(v) >= 0`, and
      capacity `StillWin(v)`. */
  lemma SinkEdgeSound(s: Standings, t: int, v: int)
    requires s.WellFormed() && 0 <= t < |s.names| && 0 <= v < |s.names|
    ensures forall k :: 0 <= k < |NetworkOf(s, t).edges| && IsSinkEdgeOf(NetworkOf(s, t).edges[k], v) ==>
      v != t && StillWin(s, t, v) >= 0 && NetworkOf(s, t).edges[k].capacity == StillWin(s, t, v)
  {
    var n := |s.names|;
    var ps := Pairs(n, t);
    PairsBounds(n, t);
    PairsInStandings(s, t);
    var g := GameEdges(s.games, ps, TeamBase + n);
    GameEdgesEnds(s.games, ps, TeamBase + n, n, t);
    SinkEdgesSound(s, t, n);
    var e := SinkEdges(s, t, n);
    var edges := g + e;
    assert NetworkOf(s, t).edges == edges;
    forall k | 0 <= k < |g|
      ensures !IsSinkEdgeOf(g[k], v)
    {
      assert g[k] in g;
    }
    forall k | 0 <= k < |edges| && IsSinkEdgeOf(edges[k], v)
      ensures v != t && StillWin(s, t, v) >= 0 && edges[k].capacity == StillWin(s, t, v)
    {
      assert k >= |g|;
      assert edges[k] == e[k - |g|];
      assert SinkEdgeOk(s, t, edges[k]);
      assert edges[k].from - TeamBase == v;
    }
  }

  /** Every rival `v != t` with `StillWin(v) >= 0` has an edge into the sink. */
  lemma SinkEdgeComplete(s: Standings, t: int, v: int)
    requires s.WellFormed() && 0 <= t < |s.names| && 0 <= v < |s.names|
    requires v != t && StillWin(s, t, v) >= 0
    ensures exists k :: 0 <= k < |NetworkOf(s, t).edges| && IsSinkEdgeOf(NetworkOf(s, t).edges[k], v)
  {
    var n := |s.names|;
    PairsInStandings(s, t);
    var g := GameEdges(s.games, Pairs(n, t), TeamBase + n);
    SinkEdgesComplete(s, t, n);
    var e := SinkEdges(s, t, n);
    var edges := g + e;
    assert NetworkOf(s, t).edges == edges;
    var x := FlowEdge(TeamBase + v, Sink, StillWin(s, t, v));
    assert x in e;
    var k :| 0 <= k < |e| && e[k] == x;
    assert edges[|g| + k] == x;
    assert IsSinkEdgeOf(edges[|g| + k], v);
  }

  /** Rival `v` has an edge into the sink exactly when `v != t` and `StillWin(v) >= 0`,
      and every such edge has capacity `StillWin(v)`. */
  lemma SinkEdgeIff(s: Standings, t: int, v: int)
    requires s.WellFormed() && 0 <= t < |s.names| && 0 <= v < |s.names|
    ensures (exists k :: 0 <= k < |NetworkOf(s, t).edges| && IsSinkEdgeOf(NetworkOf(s, t).edges[k], v)) <==>
      v != t && StillWin(s, t, v) >= 0
    ensures forall k :: 0 <= k < |NetworkOf(s, t).edges| && IsSinkEdgeOf(NetworkOf(s, t).edges[k], v) ==>
      NetworkOf(s, t).edges[k].capacity == StillWin(s, t, v)
  {
    SinkEdgeSound(s, t, v);
    if v != t && StillWin(s, t, v) >= 0 {
      SinkEdgeComplete(s, t, v);
    }
  }

  /** `value` is the sum of all source-edge capacities, stored as a Java `int`; when that
      sum fits in an `int` the two are equal. */
  lemma ValueIsSourceCapacity(s: Standings, t: int)
    requires s.WellFormed() && 0 <= t < |s.names|
    ensures Value(s, t) == Int32.Wrap(SourceCapacity(NetworkOf(s, t).edges))
    ensures Int32.InRange(SourceCapacity(NetworkOf(s, t).edges)) ==> Value(s, t) == SourceCapacity(NetworkOf(s, t).edges)
  {
    var n := |s.names|;
    var ps := Pairs(n, t);
    var g := GameEdges(s.games, ps, TeamBase + n);
    var e := SinkEdges(s, t, n);
    assert NetworkOf(s, t).edges == g + e;
    AccumulateWraps(s.games, ps);
    GameEdgesSourceCapacity(s.games, ps, TeamBase + n);
    SinkEdgesSourceCapacity(s, t);
    SourceCapacityAppend(g, e);
  }

  /** No sink edge leaves the source. */
  lemma SinkEdgesSourceCapacity(s: Standings, t: int)
    requires s.WellFormed() && 0 <= t < |s.names|
    ensures SourceCapacity(SinkEdges(s, t, |s.names|)) == 0
  {
    var e := SinkEdges(s, t, |s.names|);
    SinkEdgesEnds(s, t, |s.names|);
    forall k | 0 <= k < |e|
      ensures e[k].from != Source
    {
      assert e[k] in e;
    }
    SourceCapacityNone(e);
  }

  // ---------------------------------------------------------------------------
  // Properties of the verdict

  /** With exact arithmetic (no `int` overflow), `StillWin(v) < 0` is the textbook test
      `wins(t) + remaining(t) < wins(v)`. */
  lemma StillWinExact(s: Standings, t: int, v: int)
    requires s.WellFormed() && 0 <= t < |s.names| && 0 <= v < |s.names|
    requires 0 <= s.win[v] && 0 <= s.win[t] + s.toPlay[t] <= Int32.Max
    ensures StillWin(s, t, v) == s.win[t] + s.toPlay[t] - s.win[v]
    ensures StillWin(s, t, v) < 0 <==> s.win[t] + s.toPlay[t] < s.win[v]
  {
    Int32.AddSub(s.win[t], s.toPlay[t], s.win[v]);
  }

  /** The trivial certificate holds exactly the rivals that alone have more wins than `t`
      can reach. */
  lemma TrivialCertificate(s: Standings, t: int)
    requires s.WellFormed() && 0 <= t < |s.names|
    ensures forall x :: x in Rivals(s.names, t, TrivialCause(s, t), |s.names|) <==>
      exists v :: 0 <= v < |s.names| && v != t && StillWin(s, t, v) < 0 && s.names[v] == x
  {
    var keep := TrivialCause(s, t);
    RivalsMembers(s.names, t, keep, |s.names|);
    forall v | 0 <= v < |s.names|
      ensures (TeamBase + v in keep) == (StillWin(s, t, v) < 0)
    {
      TrivialCauseMember(s, t, v);
    }
  }

  /** One step of the trivial loop at `v`: rival `v` joins the front of the trivial
      certificate exactly when it alone has more wins than `t` can reach. */
  lemma TrivialNext(s: Standings, t: int, v: nat)
    requires s.WellFormed() && 0 <= t < |s.names| && v < |s.names|
    ensures v != t && StillWin(s, t, v) < 0 ==>
      Rivals(s.names, t, TrivialCause(s, t), v + 1) == [s.names[v]] + Rivals(s.names, t, TrivialCause(s, t), v)
    ensures !(v != t && StillWin(s, t, v) < 0) ==>
      Rivals(s.names, t, TrivialCause(s, t), v + 1) == Rivals(s.names, t, TrivialCause(s, t), v)
  {
    RivalsNext(s.names, t, TrivialCause(s, t), v);
    TrivialCauseMember(s, t, v);
  }

  /** One step of the trivial loop at `v`, for the certificate `cert` and the edges
      `edges` built so far, on each of its three paths. */
  lemma TrivialStep(s: Standings, t: int, v: nat, prefix: seq<FlowEdge>, edges: seq<FlowEdge>, cert: seq<string>)
    requires s.WellFormed() && 0 <= t < |s.names| && v < |s.names|
    requires edges == prefix + SinkEdges(s, t, v)
    requires cert == Rivals(s.names, t, TrivialCause(s, t), v)
    ensures v == t ==>
      cert == Rivals(s.names, t, TrivialCause(s, t), v + 1) && edges == prefix + SinkEdges(s, t, v + 1)
    ensures v != t && StillWin(s, t, v) < 0 ==>
      [s.names[v]] + cert == Rivals(s.names, t, TrivialCause(s, t), v + 1) &&
      edges == prefix + SinkEdges(s, t, v + 1)
    ensures v != t && StillWin(s, t, v) >= 0 ==>
      cert == Rivals(s.names, t, TrivialCause(s, t), v + 1) &&
      edges + [FlowEdge(TeamBase + v, Sink, StillWin(s, t, v))] == prefix + SinkEdges(s, t, v + 1)
  {
    TrivialNext(s, t, v);
    SinkEdgesNext(s, t, v, prefix, edges);
  }

  /** Some rival alone has more wins than `t` can reach exactly when the trivial
      certificate is not empty. */
  lemma TrivialNonEmpty(s: Standings, t: int)
    requires s.WellFormed() && 0 <= t < |s.names|
    ensures ImpossibleToWin(s, t) <==> Rivals(s.names, t, TrivialCause(s, t), |s.names|) != []
  {
    var r := Rivals(s.names, t, TrivialCause(s, t), |s.names|);
    TrivialCertificate(s, t);
    if r != [] {
      assert r[0] in r;
    }
    if ImpossibleToWin(s, t) {
      var v :| 0 <= v < |s.names| && v != t && StillWin(s, t, v) < 0;
      assert s.names[v] in r;
    }
  }

  /** Trivial elimination: if some rival alone has more wins than `t` can reach, `t` is
      eliminated and its certificate holds exactly those rivals. */
  lemma TrivialElimination(s: Standings, t: int, solver: Solver)
    requires s.WellFormed() && 0 <= t < |s.names|
    requires ImpossibleToWin(s, t)
    ensures Verdict(s, t, solver).isEliminated
    ensures forall x :: x in Verdict(s, t, solver).certificate <==>
      exists v :: 0 <= v < |s.names| && v != t && StillWin(s, t, v) < 0 && s.names[v] == x
  {
    TrivialCertificate(s, t);
  }

  /** A rival that ties `t`'s best possible total is not a trivial cause: it gets a
      sink edge of capacity 0 and is not in a trivial certificate. */
  lemma TieIsNotTrivial(s: Standings, t: int, v: int)
    requires s.WellFormed() && s.DistinctNames() && 0 <= t < |s.names| && 0 <= v < |s.names| && v != t
    requires StillWin(s, t, v) == 0
    ensures FlowEdge(TeamBase + v, Sink, 0) in NetworkOf(s, t).edges
    ensures s.names[v] !in Rivals(s.names, t, TrivialCause(s, t), |s.names|)
  {
    var n := |s.names|;
    SinkEdgesComplete(s, t, n);
    var e := SinkEdges(s, t, n);
    assert FlowEdge(TeamBase + v, Sink, StillWin(s, t, v)) in e;
    assert NetworkOf(s, t).edges == GameEdges(s.games, Pairs(n, t), TeamBase + n) + e;
    TrivialCertificate(s, t);
    if s.names[v] in Rivals(s.names, t, TrivialCause(s, t), n) {
      assert false;
    }
  }

  /** Flow verdict: without a trivial cause, `t` is eliminated exactly when the maximum
      flow is below `value`; then the certificate is exactly the rivals whose vertex is on
      the source side of the minimum cut; otherwise the certificate is empty. */
  lemma FlowElimination(s: Standings, t: int, solver: Solver)
    requires s.WellFormed() && 0 <= t < |s.names|
    requires !ImpossibleToWin(s, t)
    ensures var ff := solver(NetworkOf(s, t), Source, Sink); var r := Verdict(s, t, solver);
      (r.isEliminated <==> ff.value < Value(s, t)) &&
      (r.isEliminated ==> forall x :: x in r.certificate <==>
        exists v :: 0 <= v < |s.names| && v != t && TeamBase + v in ff.inCut && s.names[v] == x) &&
      (!r.isEliminated ==> r.certificate == [])
  {
    var ff := solver(NetworkOf(s, t), Source, Sink);
    RivalsMembers(s.names, t, ff.inCut, |s.names|);
  }
}
