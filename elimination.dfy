/** The division object: its teams with their standings and their per-team verdict, the
    name-to-index map and the matrix of games left, the elimination pass that runs once
    at construction and writes each team's verdict and certificate in place, and the
    name-based accessors. */
module Elimination {
  import Int32
  import opened Flow
  import opened Reduction

  /** `IllegalArgumentException` thrown by an accessor for a name not in the division. */
  datatype Error = UnknownTeam(name: string)

  datatype Result<T> = Ok(value: T) | Err(error: Error)

  /** `null` or a reference to a value. */
  datatype Option<T> = None | Some(value: T)

  /** One record of the input: a team's name, wins, losses, remaining games and its row
      of the games-left matrix. */
  datatype TeamRecord = TeamRecord(name: string, win: int, losses: int, toPlay: int, against: seq<int>)

  /** A team: its standings, fixed at construction, and the verdict the elimination pass
      stores into it, with the certificate as a bag of team names. */
  class Team {
    const name: string
    const win: int
    const losses: int
    const toPlay: int
    var isEliminated: bool
    var certificate: seq<string>

    /** A new team is not eliminated and has an empty certificate. */
    constructor (name: string, win: int, losses: int, toPlay: int)
      ensures this.name == name && this.win == win && this.losses == losses && this.toPlay == toPlay
      ensures !isEliminated && certificate == []
    {
      this.name := name;
      this.win := win;
      this.losses := losses;
      this.toPlay := toPlay;
      this.isEliminated := false;
      this.certificate := [];
    }

    /** The state of a team the elimination pass has not reached yet. */
    predicate Undecided()
      reads this
    {
      !isEliminated && certificate == []
    }

    /** The verdict stored in this team. */
    function Outcome(): TeamResult
      reads this
    {
      TeamResult(isEliminated, certificate)
    }
  }

  class BaseballElimination {
    const number: nat
    const teams: seq<Team>
    const teamsIndex: map<string, int>
    const games: seq<seq<int>>

    /** One team object per index, the map sends each name to the index of its team (so
        names, and with them objects, are distinct), an n-by-n matrix, and Java `int` standings. */
    ghost predicate Valid() {
      |teams| == number && |games| == number &&
      (forall i :: 0 <= i < number ==> |games[i]| == number) &&
      (forall name :: name in teamsIndex ==> 0 <= teamsIndex[name] < number && teams[teamsIndex[name]].name == name) &&
      (forall i :: 0 <= i < number ==> teams[i].name in teamsIndex && teamsIndex[teams[i].name] == i) &&
      (forall i :: 0 <= i < number ==>
        Int32.InRange(teams[i].win) && Int32.InRange(teams[i].losses) && Int32.InRange(teams[i].toPlay)) &&
      (forall i, j :: 0 <= i < number && 0 <= j < number ==> Int32.InRange(games[i][j]))
    }

    /** The standings by index, as the reduction reads them. */
    ghost function Standings(): (s: Reduction.Standings)
      requires Valid()
      ensures s.WellFormed() && |s.names| == number
    {
      Reduction.Standings(
        seq(number, i requires 0 <= i < number => teams[i].name),
        seq(number, i requires 0 <= i < number => teams[i].win),
        seq(number, i requires 0 <= i < number => teams[i].losses),
        seq(number, i requires 0 <= i < number => teams[i].toPlay),
        games)
    }

    /** Different indices hold different team objects with different names. */
    lemma DistinctTeams()
      requires Valid()
      ensures forall i, j :: 0 <= i < j < number ==> teams[i] != teams[j] && teams[i].name != teams[j].name
      ensures Standings().DistinctNames()
    {
      forall i, j | 0 <= i < j < number
        ensures teams[i].name != teams[j].name
      {
        assert teamsIndex[teams[i].name] == i && teamsIndex[teams[j].name] == j;
      }
    }

    /** Every team holds the verdict the reduction gives for it with this solver. */
    ghost predicate Decided(solver: Solver)
      requires Valid()
      reads teams
    {
      forall i :: 0 <= i < number ==> teams[i].Outcome() == Verdict(Standings(), i, solver)
    }

    /** The division is read from its records, then every team's verdict is computed. */
    constructor (records: seq<TeamRecord>, solver: Solver)
      requires forall i, j :: 0 <= i < j < |records| ==> records[i].name != records[j].name
      requires forall i :: 0 <= i < |records| ==> |records[i].against| == |records|
      requires forall i :: 0 <= i < |records| ==>
        Int32.InRange(records[i].win) && Int32.InRange(records[i].losses) && Int32.InRange(records[i].toPlay)
      requires forall i, j :: 0 <= i < |records| && 0 <= j < |records| ==> Int32.InRange(records[i].against[j])
      requires |records| >= 3 ==> forall i, j :: 0 <= i < j < |records| ==> 0 <= records[i].against[j]
      ensures Valid() && number == |records|
      ensures forall i :: 0 <= i < |records| ==>
        teams[i].name == records[i].name && teams[i].win == records[i].win &&
        teams[i].losses == records[i].losses && teams[i].toPlay == records[i].toPlay &&
        games[i] == records[i].against
      ensures Decided(solver)
    {
      number := |records|;
      var ts: seq<Team> := [];
      var index: map<string, int> := map[];
      var rows: seq<seq<int>> := [];
      for i := 0 to |records|
        invariant |ts| == i && |rows| == i
        invariant forall k :: 0 <= k < i ==>
          fresh(ts[k]) && ts[k].Undecided() &&
          ts[k].name == records[k].name && ts[k].win == records[k].win &&
          ts[k].losses == records[k].losses && ts[k].toPlay == records[k].toPlay &&
          rows[k] == records[k].against
        invariant forall name :: name in index ==> 0 <= index[name] < i && records[index[name]].name == name
        invariant forall k :: 0 <= k < i ==> records[k].name in index && index[records[k].name] == k
      {
        var r := records[i];
        var t := new Team(r.name, r.win, r.losses, r.toPlay);
        ts := ts + [t];
        index := index[r.name := i];
        rows := rows + [r.against];
      }
      teams := ts;
      teamsIndex := index;
      games := rows;
      new;
      MathematicalElimination(solver);
    }

    /** For every team, in whatever order the name map yields them, decide whether it is
        eliminated and store the verdict and certificate in that team. */
    method MathematicalElimination(solver: Solver)
      requires Valid()
      requires forall i :: 0 <= i < number ==> teams[i].Undecided()
      modifies teams
      ensures Decided(solver)
    {
      DistinctTeams();
      var pending := teamsIndex.Keys;
      while pending != {}
        invariant pending <= teamsIndex.Keys
        invariant forall i :: 0 <= i < number ==>
          if teams[i].name in pending then teams[i].Undecided()
          else teams[i].Outcome() == Verdict(Standings(), i, solver)
        decreases pending
      {
        var team :| team in pending;
        DecideTeam(team, solver);
        pending := pending - {team};
      }
    }

    /** The elimination pass for one team: build the network, run the trivial check, and
        only without a trivial cause, ask the solver. Writes nothing but this team. */
    method DecideTeam(team: string, solver: Solver)
      requires Valid() && team in teamsIndex
      requires teams[teamsIndex[team]].Undecided()
      modifies teams[teamsIndex[team]]
      ensures teams[teamsIndex[team]].Outcome() == Verdict(Standings(), teamsIndex[team], solver)
    {
      var n: int := number;
      var teamIndex := teamsIndex[team];
      var me := teams[teamIndex];
      ghost var s := Standings();
      var vertices := 2 + (n - 1) * (n - 2) / 2 + n;
      var edges, value, round := BuildGameEdges(teamIndex);
      var impossibleToWin;
      edges, impossibleToWin := TrivialCheck(teamIndex, edges);
      if impossibleToWin {
        me.isEliminated := true;
      } else {
        var ff := solver(FlowNetwork(vertices, edges), Source, Sink);
        assert FlowNetwork(vertices, edges) == NetworkOf(s, teamIndex);
        if ff.value < value {
          me.isEliminated := true;
          CutCertificate(teamIndex, ff);
        }
      }
    }

    /** The loop over the rivals of team `teamIndex`: a rival that alone has more wins than
        the team can reach goes to the front of its certificate; any other rival gets its edge
        to the sink, with the number of games the team may lose to it. */
    method TrivialCheck(teamIndex: int, edges0: seq<FlowEdge>) returns (edges: seq<FlowEdge>, impossibleToWin: bool)
      requires Valid() && 0 <= teamIndex < number && teams[teamIndex].Undecided()
      modifies teams[teamIndex]
      ensures edges == edges0 + SinkEdges(Standings(), teamIndex, number)
      ensures teams[teamIndex].certificate ==
        Rivals(Standings().names, teamIndex, TrivialCause(Standings(), teamIndex), number)
      ensures impossibleToWin <==> ImpossibleToWin(Standings(), teamIndex)
      ensures impossibleToWin <==> teams[teamIndex].certificate != []
      ensures !teams[teamIndex].isEliminated
    {
      var n: int := number;
      ghost var s := Standings();
      edges := edges0;
      impossibleToWin := false;
      for i := 0 to n
        invariant edges == edges0 + SinkEdges(s, teamIndex, i)
        invariant teams[teamIndex].certificate == Rivals(s.names, teamIndex, TrivialCause(s, teamIndex), i)
        invariant impossibleToWin <==> teams[teamIndex].certificate != []
        invariant !teams[teamIndex].isEliminated
      {
        if i == teamIndex {
          TrivialStep(s, teamIndex, i, edges0, edges, teams[teamIndex].certificate);
        } else {
          var cause;
          edges, cause := CheckRival(teamIndex, i, edges0, edges);
          impossibleToWin := impossibleToWin || cause;
        }
      }
      TrivialNonEmpty(s, teamIndex);
    }

    /** The body of the trivial loop for rival `i` of team `teamIndex`: when the rival alone
        has more wins than the team can reach, it goes to the front of the team's certificate;
        otherwise its edge to the sink is added, with the number of games the team may lose to it. */
    method CheckRival(teamIndex: int, i: int, edges0: seq<FlowEdge>, edges: seq<FlowEdge>)
        returns (edges': seq<FlowEdge>, cause: bool)
      requires Valid() && 0 <= teamIndex < number && 0 <= i < number && i != teamIndex
      requires edges == edges0 + SinkEdges(Standings(), teamIndex, i)
      requires teams[teamIndex].certificate == Rivals(Standings().names, teamIndex, TrivialCause(Standings(), teamIndex), i)
      modifies teams[teamIndex]
      ensures edges' == edges0 + SinkEdges(Standings(), teamIndex, i + 1)
      ensures teams[teamIndex].certificate == Rivals(Standings().names, teamIndex, TrivialCause(Standings(), teamIndex), i + 1)
      ensures cause <==> StillWin(Standings(), teamIndex, i) < 0
      ensures cause ==> teams[teamIndex].certificate == [teams[i].name] + old(teams[teamIndex].certificate)
      ensures !cause ==> teams[teamIndex].certificate == old(teams[teamIndex].certificate)
      ensures teams[teamIndex].isEliminated == old(teams[teamIndex].isEliminated)
    {
      var me := teams[teamIndex];
      var team := me.name;
      ghost var s := Standings();
      TrivialStep(s, teamIndex, i, edges0, edges, me.certificate);
      var rival := teams[i].name;
      var stillWin := Int32.Sub(Int32.Add(Wins(team).value, Remaining(team).value), Wins(rival).value);
      assert stillWin == StillWin(s, teamIndex, i);
      if stillWin < 0 {
        cause := true;
        me.certificate := [rival] + me.certificate;
        edges' := edges;
      } else {
        cause := false;
        edges' := edges + [FlowEdge(TeamBase + i, Sink, stillWin)];
      }
    }

    /** The loop over the rivals reading the minimum cut: a rival whose vertex is on the
        source side goes to the front of the certificate of team `teamIndex`. */
    method CutCertificate(teamIndex: int, ff: MaxFlow)
      requires Valid() && 0 <= teamIndex < number && teams[teamIndex].certificate == []
      modifies teams[teamIndex]
      ensures teams[teamIndex].certificate == Rivals(Standings().names, teamIndex, ff.inCut, number)
      ensures teams[teamIndex].isEliminated == old(teams[teamIndex].isEliminated)
    {
      var n: int := number;
      var me := teams[teamIndex];
      ghost var names := Standings().names;
      var teamBase := TeamBase;
      for v := 0 to n
        invariant me.certificate == Rivals(names, teamIndex, ff.inCut, v)
        invariant me.isEliminated == old(me.isEliminated)
      {
        RivalsNext(names, teamIndex, ff.inCut, v);
        if v == teamIndex {
          continue;
        }
        if v + teamBase in ff.inCut {
          var name := teams[v].name;
          me.certificate := [name] + me.certificate;
        }
      }
    }

    /** The pair loop: one game vertex per pair `i < j` of teams other than `teamIndex`,
        numbered from `2 + n` in loop order, `value` accumulating the games left between
        them; `round` ends at the vertex count. */
    method BuildGameEdges(teamIndex: int) returns (edges: seq<FlowEdge>, value: int, round: int)
      requires Valid() && 0 <= teamIndex < number
      ensures edges == GameEdges(games, Pairs(number, teamIndex), TeamBase + number)
      ensures value == Accumulate(games, Pairs(number, teamIndex))
      ensures round == VertexCount(number)
    {
      var n := number;
      round := 2 + n;
      value := 0;
      edges := [];
      ghost var qs: seq<(int, int)> := [];
      for i := 0 to n
        invariant qs == PairsBefore(n, teamIndex, i)
        invariant edges == GameEdges(games, qs, TeamBase + n) && value == Accumulate(games, qs)
        invariant round == TeamBase + n + |qs|
      {
        PairsBeforeNext(n, teamIndex, i);
        if i == teamIndex {
          continue;
        }
        edges, value, round := GameRow(teamIndex, i, edges, value, round, qs);
        qs := qs + RowPairs(teamIndex, i, n);
      }
      PairsCount(n, teamIndex);
    }

    /** The inner pair loop for row `i`: the pairs `(i, j)` with `i < j` and `j != teamIndex`
        get their game vertices and edges in increasing `j`, after the pairs `before` of the
        rows above. */
    method GameRow(teamIndex: int, i: int, edges: seq<FlowEdge>, value: int, round: int, ghost before: seq<(int, int)>)
        returns (edges': seq<FlowEdge>, value': int, round': int)
      requires Valid() && 0 <= teamIndex < number && 0 <= i < number && i != teamIndex
      requires edges == GameEdges(games, before, TeamBase + number) && value == Accumulate(games, before)
      requires round == TeamBase + number + |before|
      ensures edges' == GameEdges(games, before + RowPairs(teamIndex, i, number), TeamBase + number)
      ensures value' == Accumulate(games, before + RowPairs(teamIndex, i, number))
      ensures round' == TeamBase + number + |before + RowPairs(teamIndex, i, number)|
    {
      var n := number;
      edges', value', round' := edges, value, round;
      ghost var qs := before;
      assert before + RowPairs(teamIndex, i, i + 1) == before;
      for j := i + 1 to n
        invariant qs == before + RowPairs(teamIndex, i, j)
        invariant edges' == GameEdges(games, qs, TeamBase + n) && value' == Accumulate(games, qs)
        invariant round' == TeamBase + n + |qs|
      {
        if j == teamIndex {
          assert RowPairs(teamIndex, i, j + 1) == RowPairs(teamIndex, i, j) + [];
          continue;
        }
        edges', value' := AddGame(i, j, edges', value', round', qs);
        qs := qs + [(i, j)];
        round' := round' + 1;
      }
    }

    /** The body of the pair loop for teams `i` and `j`, visited after the pairs `qs`: game
        vertex `round` gets an edge from the source with the games left between them and an
        edge to each of their team vertices, and those games are added to `value`. */
    method AddGame(i: int, j: int, edges: seq<FlowEdge>, value: int, round: int, ghost qs: seq<(int, int)>)
        returns (edges': seq<FlowEdge>, value': int)
      requires Valid() && 0 <= i < number && 0 <= j < number && round == TeamBase + number + |qs|
      requires edges == GameEdges(games, qs, TeamBase + number) && value == Accumulate(games, qs)
      ensures edges' == GameEdges(games, qs + [(i, j)], TeamBase + number)
      ensures value' == Accumulate(games, qs + [(i, j)])
    {
      var teamBase, s := TeamBase, Source;
      var play1 := teams[i].name;
      var play2 := teams[j].name;
      var toPlay := Against(play1, play2).value;
      assert toPlay == games[i][j];
      GameStep(games, qs, (i, j), TeamBase + number, edges, value);
      edges' := edges + [FlowEdge(s, round, toPlay)];
      value' := Int32.Add(value, toPlay);
      edges' := edges' + [FlowEdge(round, teamBase + i, Int32.Max)];
      edges' := edges' + [FlowEdge(round, teamBase + j, Int32.Max)];
    }

    /** Some team of the division has this name. */
    ghost predicate Known(team: string)
      requires Valid()
    {
      exists i :: 0 <= i < number && teams[i].name == team
    }

    function NumberOfTeams(): (r: nat)
      requires Valid()
      ensures r == |Teams()|
    {
      NamesCount(number);
      number
    }

    /** The names of the division's teams. */
    function Teams(): (r: set<string>)
      requires Valid()
      ensures forall team :: team in r <==> Known(team)
    {
      teamsIndex.Keys
    }

    /** The number of distinct names among the first `k` teams is `k`. */
    lemma {:induction false} NamesCount(k: nat)
      requires Valid() && k <= number
      ensures |set i | 0 <= i < k :: teams[i].name| == k
      ensures k == number ==> (set i | 0 <= i < k :: teams[i].name) == teamsIndex.Keys
    {
      if k > 0 {
        NamesCount(k - 1);
        var before := set i | 0 <= i < k - 1 :: teams[i].name;
        assert (set i | 0 <= i < k :: teams[i].name) == before + {teams[k - 1].name};
        assert teams[k - 1].name !in before;
      }
    }

    function Wins(team: string): (r: Result<int>)
      requires Valid()
      ensures r.Err? <==> !Known(team)
      ensures r.Err? ==> r.error == UnknownTeam(team)
      ensures forall i :: 0 <= i < number && teams[i].name == team ==> r == Ok(teams[i].win)
    {
      if team !in teamsIndex then Err(UnknownTeam(team)) else Ok(teams[teamsIndex[team]].win)
    }

    function Losses(team: string): (r: Result<int>)
      requires Valid()
      ensures r.Err? <==> !Known(team)
      ensures r.Err? ==> r.error == UnknownTeam(team)
      ensures forall i :: 0 <= i < number && teams[i].name == team ==> r == Ok(teams[i].losses)
    {
      if team !in teamsIndex then Err(UnknownTeam(team)) else Ok(teams[teamsIndex[team]].losses)
    }

    function Remaining(team: string): (r: Result<int>)
      requires Valid()
      ensures r.Err? <==> !Known(team)
      ensures r.Err? ==> r.error == UnknownTeam(team)
      ensures forall i :: 0 <= i < number && teams[i].name == team ==> r == Ok(teams[i].toPlay)
    {
      if team !in teamsIndex then Err(UnknownTeam(team)) else Ok(teams[teamsIndex[team]].toPlay)
    }

    /** Games left between two teams; the first unknown name is the one reported. */
    function Against(team1: string, team2: string): (r: Result<int>)
      requires Valid()
      ensures !Known(team1) ==> r == Err(UnknownTeam(team1))
      ensures Known(team1) && !Known(team2) ==> r == Err(UnknownTeam(team2))
      ensures forall i, j :: 0 <= i < number && 0 <= j < number && teams[i].name == team1 && teams[j].name == team2 ==>
        r == Ok(games[i][j])
    {
      if team1 !in teamsIndex then Err(UnknownTeam(team1))
      else if team2 !in teamsIndex then Err(UnknownTeam(team2))
      else Ok(games[teamsIndex[team1]][teamsIndex[team2]])
    }

    function IsEliminated(team: string): (r: Result<bool>)
      requires Valid()
      reads teams
      ensures r.Err? <==> !Known(team)
      ensures r.Err? ==> r.error == UnknownTeam(team)
      ensures forall i :: 0 <= i < number && teams[i].name == team ==> r == Ok(teams[i].isEliminated)
    {
      if team !in teamsIndex then Err(UnknownTeam(team)) else Ok(teams[teamsIndex[team]].isEliminated)
    }

    /** The certificate bag, or `null` (`None`) when it is empty. */
    function CertificateOfElimination(team: string): (r: Result<Option<seq<string>>>)
      requires Valid()
      reads teams
      ensures r.Err? <==> !Known(team)
      ensures r.Err? ==> r.error == UnknownTeam(team)
      ensures forall i :: 0 <= i < number && teams[i].name == team ==>
        (r == Ok(None) <==> teams[i].certificate == []) &&
        (teams[i].certificate != [] ==> r == Ok(Some(teams[i].certificate)))
    {
      if team !in teamsIndex then Err(UnknownTeam(team))
      else
        var certificate := teams[teamsIndex[team]].certificate;
        if certificate == [] then Ok(None) else Ok(Some(certificate))
    }

    /** Once every verdict is stored, a certificate is reported only for an eliminated team,
        a team reported not eliminated has no certificate, and no certificate names its
        own team. */
    lemma CertificateMeansEliminated(team: string, solver: Solver)
      requires Valid() && Decided(solver) && Known(team)
      ensures CertificateOfElimination(team).Ok? && CertificateOfElimination(team).value.Some? ==>
        IsEliminated(team) == Ok(true)
      ensures IsEliminated(team) == Ok(false) ==> CertificateOfElimination(team) == Ok(None)
      ensures CertificateOfElimination(team).Ok? && CertificateOfElimination(team).value.Some? ==>
        team !in CertificateOfElimination(team).value.value
    {
      var i :| 0 <= i < number && teams[i].name == team;
      assert teams[i].Outcome() == Verdict(Standings(), i, solver);
      DistinctTeams();
      VerdictDistinct(Standings(), i, solver);
      assert Standings().names[i] == team;
    }
  }
}
