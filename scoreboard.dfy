/** The scoreboard (src/Pages/Scoreboard.tsx): for each team, the starters its legacy
    `lineup` field names, their point total for the selected week and the leading scorer;
    then the teams ordered by total. */
module Scoreboard {
  import opened Wrappers
  import opened LineupSlots
  import opened League
  import Sorting
  import TeamPage

  // ---------------------------------------------------------------------------------
  // Starters

  /** The starter a raw lineup names for one slot: the team player whose id the slot holds,
      if the slot holds a present id and the team has such a player. */
  function SlotStarter(raw: RawLineup, teamPlayers: seq<Player>, s: Slot): (r: Option<Player>)
    ensures r.Some? ==> r.value in teamPlayers && SlotPlayerId(raw, s) == Some(r.value.id)
    ensures r.None? ==> SlotPlayerId(raw, s).None? || !exists p :: p in teamPlayers && p.id == SlotPlayerId(raw, s).value
  {
    match SlotPlayerId(raw, s)
    case None => None
    case Some(id) =>
      match FindById(teamPlayers, id)
      case None => None
      case Some(k) => Some(teamPlayers[k])
  }

  /** The slot's starter as a list of zero or one players. */
  function SlotList(raw: RawLineup, teamPlayers: seq<Player>, s: Slot): seq<Player>
  {
    match SlotStarter(raw, teamPlayers, s)
    case Some(p) => [p]
    case None => []
  }

  /** The starters the slots of `slots` give, in the order of `slots`. */
  function StartersOver(raw: RawLineup, teamPlayers: seq<Player>, slots: seq<Slot>): (r: seq<Player>)
    ensures |r| <= |slots|
    decreases |slots|
  {
    if slots == [] then []
    else StartersOver(raw, teamPlayers, slots[..|slots| - 1]) + SlotList(raw, teamPlayers, slots[|slots| - 1])
  }

  /** Every starter over `slots` is a team player whose id one of those slots holds. */
  lemma {:induction false} StartersOverMembers(raw: RawLineup, teamPlayers: seq<Player>, slots: seq<Slot>)
    ensures forall p :: p in StartersOver(raw, teamPlayers, slots) ==>
              p in teamPlayers && exists s :: s in slots && SlotPlayerId(raw, s) == Some(p.id)
    decreases |slots|
  {
    if slots != [] {
      StartersOverMembers(raw, teamPlayers, slots[..|slots| - 1]);
      assert forall s :: s in slots[..|slots| - 1] ==> s in slots;
    }
  }

  /** A team's starters: none without a lineup, else one per slot whose id belongs to a
      player on the team, in LINEUP order. */
  function Starters(team: Team, players: seq<Player>): (r: seq<Player>)
    ensures team.lineup.None? ==> r == []
    ensures |r| <= |Slots|
  {
    match team.lineup
    case None => []
    case Some(raw) => StartersOver(raw, OnTeam(players, team.id), Slots)
  }

  /** Starters are players of this team whose id the lineup holds for some slot. */
  lemma StartersOnTeam(team: Team, players: seq<Player>)
    ensures forall p :: p in Starters(team, players) ==>
              p in players && p.teamId == Some(team.id) &&
              exists s :: SlotPlayerId(team.lineup.value, s) == Some(p.id)
  {
    if team.lineup.Some? {
      StartersOverMembers(team.lineup.value, OnTeam(players, team.id), Slots);
    }
  }

  /** One iteration of the starters loop: look up the slot's player id and, when it is
      present and a team player has it, push that player. */
  method PushSlotStarter(raw: RawLineup, teamPlayers: seq<Player>, s: Slot, starters: seq<Player>)
    returns (pushed: seq<Player>)
    ensures pushed == starters + SlotList(raw, teamPlayers, s)
  {
    pushed := starters;
    var id := SlotPlayerId(raw, s);
    if id.Some? {
      var k := FindById(teamPlayers, id.value);
      if k.Some? {
        pushed := starters + [teamPlayers[k.value]];
      }
    }
  }

  /** The starters loop: walk the five slot names, push the team player each one names. */
  method ResolveStarters(team: Team, players: seq<Player>) returns (starters: seq<Player>)
    ensures starters == Starters(team, players)
  {
    var teamPlayers := OnTeam(players, team.id);
    starters := [];
    if team.lineup.Some? {
      var raw := team.lineup.value;
      for i := 0 to |Slots|
        invariant starters == StartersOver(raw, teamPlayers, Slots[..i])
      {
        assert Slots[..i + 1][..i] == Slots[..i];
        starters := PushSlotStarter(raw, teamPlayers, Slots[i], starters);
      }
      assert Slots[..|Slots|] == Slots;
    }
  }

  /** The starters are the per-slot starters of Passing, Rushing, Receiving, Defense and
      Kicking, concatenated in that order. */
  lemma StartersInSlotOrder(team: Team, players: seq<Player>)
    requires team.lineup.Some?
    ensures var raw := team.lineup.value; var tp := OnTeam(players, team.id);
      Starters(team, players) ==
        SlotList(raw, tp, Passing) + SlotList(raw, tp, Rushing) + SlotList(raw, tp, Receiving) +
        SlotList(raw, tp, Defense) + SlotList(raw, tp, Kicking)
  {
    var raw := team.lineup.value;
    var tp := OnTeam(players, team.id);
    var s1, s2, s3, s4 := [Passing], [Passing, Rushing], [Passing, Rushing, Receiving],
                          [Passing, Rushing, Receiving, Defense];
    assert s1[..0] == [] && s2[..1] == s1 && s3[..2] == s2 && s4[..3] == s3 && Slots[..4] == s4;
    assert StartersOver(raw, tp, s1) == SlotList(raw, tp, Passing);
    assert StartersOver(raw, tp, s2) == StartersOver(raw, tp, s1) + SlotList(raw, tp, Rushing);
    assert StartersOver(raw, tp, s3) == StartersOver(raw, tp, s2) + SlotList(raw, tp, Receiving);
    assert StartersOver(raw, tp, s4) == StartersOver(raw, tp, s3) + SlotList(raw, tp, Defense);
    assert StartersOver(raw, tp, Slots) == StartersOver(raw, tp, s4) + SlotList(raw, tp, Kicking);
  }

  // ---------------------------------------------------------------------------------
  // Totals

  /** `starters.reduce((sum, p) => sum + (p.points[week] || 0), 0)`. */
  function StarterTotal(starters: seq<Player>, week: string): (total: real)
    ensures starters == [] ==> total == 0.0
    decreases |starters|
  {
    if starters == [] then 0.0
    else StarterTotal(starters[..|starters| - 1], week) + WeekPoints(starters[|starters| - 1], week)
  }

  /** The total of a concatenation is the sum of the totals. */
  lemma {:induction false} StarterTotalAppend(a: seq<Player>, b: seq<Player>, week: string)
    ensures StarterTotal(a + b, week) == StarterTotal(a, week) + StarterTotal(b, week)
    decreases |b|
  {
    if b == [] {
      assert a + b == a;
    } else {
      var b' := b[..|b| - 1];
      assert (a + b)[..|a + b| - 1] == a + b';
      StarterTotalAppend(a, b', week);
    }
  }

  /** The lineup the scoreboard resolves for a team, as a slot-to-player map. */
  function ResolvedLineup(raw: RawLineup, teamPlayers: seq<Player>): (l: TeamPage.Lineup)
    ensures forall s :: s in l <==> SlotStarter(raw, teamPlayers, s).Some?
  {
    map s | s in AllSlots && SlotStarter(raw, teamPlayers, s).Some? :: SlotStarter(raw, teamPlayers, s).value
  }

  lemma SlotListTotal(raw: RawLineup, tp: seq<Player>, s: Slot, week: string)
    ensures StarterTotal(SlotList(raw, tp, s), week) == TeamPage.SlotPoints(ResolvedLineup(raw, tp), s, week)
  {
    if SlotStarter(raw, tp, s).Some? {
      assert [SlotStarter(raw, tp, s).value][..0] == [];
    }
  }

  /** The scoreboard's total agrees with the team page's `sumStarterPoints` over the same
      resolved lineup. */
  lemma StarterTotalMatchesTeamPage(team: Team, players: seq<Player>, week: string)
    requires team.lineup.Some?
    ensures StarterTotal(Starters(team, players), week) ==
            TeamPage.SumStarterPoints(Some(ResolvedLineup(team.lineup.value, OnTeam(players, team.id))), week)
  {
    var raw := team.lineup.value;
    var tp := OnTeam(players, team.id);
    StartersInSlotOrder(team, players);
    var p, r, c, d, k := SlotList(raw, tp, Passing), SlotList(raw, tp, Rushing), SlotList(raw, tp, Receiving),
                         SlotList(raw, tp, Defense), SlotList(raw, tp, Kicking);
    StarterTotalAppend(p, r, week);
    StarterTotalAppend(p + r, c, week);
    StarterTotalAppend(p + r + c, d, week);
    StarterTotalAppend(p + r + c + d, k, week);
    SlotListTotal(raw, tp, Passing, week);
    SlotListTotal(raw, tp, Rushing, week);
    SlotListTotal(raw, tp, Receiving, week);
    SlotListTotal(raw, tp, Defense, week);
    SlotListTotal(raw, tp, Kicking, week);
  }

  // ---------------------------------------------------------------------------------
  // Leading scorer

  /** The loop state of the leading-scorer scan; `maxPoints == None` stands for the
      initial `-Infinity`. */
  datatype Lead = Lead(scorer: Option<Player>, maxPoints: Option<real>)

  /** One iteration: a strictly greater score takes the lead. */
  function LeadStep(l: Lead, p: Player, week: string): Lead
  {
    var pts := WeekPoints(p, week);
    if l.maxPoints.None? || pts > l.maxPoints.value then Lead(Some(p), Some(pts)) else l
  }

  /** The scan over a list of starters, left to right. */
  function LeadOver(starters: seq<Player>, week: string): (l: Lead)
    ensures l.scorer.None? <==> starters == []
    ensures l.maxPoints.None? <==> starters == []
    decreases |starters|
  {
    if starters == [] then Lead(None, None)
    else LeadStep(LeadOver(starters[..|starters| - 1], week), starters[|starters| - 1], week)
  }

  /** `maxPoints === -Infinity ? 0 : maxPoints`. */
  function LeadingPoints(l: Lead): real
  {
    if l.maxPoints.None? then 0.0 else l.maxPoints.value
  }

  /** The `forEach` over the starters that tracks the best score and its player. */
  method LeadingScorer(starters: seq<Player>, week: string) returns (leader: Option<Player>, points: real)
    ensures leader == LeadOver(starters, week).scorer
    ensures points == LeadingPoints(LeadOver(starters, week))
  {
    leader := None;
    var maxPoints: Option<real> := None;
    for i := 0 to |starters|
      invariant Lead(leader, maxPoints) == LeadOver(starters[..i], week)
    {
      assert starters[..i + 1][..i] == starters[..i];
      var pts := WeekPoints(starters[i], week);
      if maxPoints.None? || pts > maxPoints.value {
        maxPoints := Some(pts);
        leader := Some(starters[i]);
      }
    }
    assert starters[..|starters|] == starters;
    points := LeadingPoints(Lead(leader, maxPoints));
  }

  /** Starter i scores `pts`, every earlier starter strictly less and every starter at
      most `pts`. */
  ghost predicate FirstMax(starters: seq<Player>, week: string, i: int, pts: real)
  {
    0 <= i < |starters| && WeekPoints(starters[i], week) == pts &&
    (forall j :: 0 <= j < i ==> WeekPoints(starters[j], week) < pts) &&
    (forall j :: 0 <= j < |starters| ==> WeekPoints(starters[j], week) <= pts)
  }

  /** With no starters there is no leader and the points are 0. With starters, the leader
      is the first starter whose week points are the maximum: every starter scores at most
      the leading points, and every earlier starter strictly less. */
  lemma {:induction false} LeadFacts(starters: seq<Player>, week: string)
    ensures var l := LeadOver(starters, week);
      starters == [] ==> l.scorer.None? && LeadingPoints(l) == 0.0
    ensures var l := LeadOver(starters, week);
      starters != [] ==>
        exists i :: 0 <= i < |starters| && l.scorer == Some(starters[i]) && FirstMax(starters, week, i, LeadingPoints(l))
    decreases |starters|
  {
    if starters != [] {
      var n := |starters| - 1;
      var prefix := starters[..n];
      var last := starters[n];
      var l := LeadOver(starters, week);
      assert l == LeadStep(LeadOver(prefix, week), last, week);
      if prefix == [] {
        assert l.scorer == Some(starters[0]) && FirstMax(starters, week, 0, LeadingPoints(l));
      } else {
        LeadFacts(prefix, week);
        var pl := LeadOver(prefix, week);
        var i :| 0 <= i < |prefix| && pl.scorer == Some(prefix[i]) && FirstMax(prefix, week, i, LeadingPoints(pl));
        if WeekPoints(last, week) > LeadingPoints(pl) {
          assert l.scorer == Some(starters[n]) && FirstMax(starters, week, n, LeadingPoints(l)) by {
            forall j | 0 <= j < n ensures WeekPoints(starters[j], week) < LeadingPoints(l) {
              assert starters[j] == prefix[j];
            }
          }
        } else {
          assert l.scorer == Some(starters[i]) && FirstMax(starters, week, i, LeadingPoints(l)) by {
            assert l == pl;
            assert starters[i] == prefix[i];
            forall j | 0 <= j < |starters| ensures WeekPoints(starters[j], week) <= LeadingPoints(l) {
              if j < n {
                assert starters[j] == prefix[j];
              }
            }
            forall j | 0 <= j < i ensures WeekPoints(starters[j], week) < LeadingPoints(l) {
              assert starters[j] == prefix[j];
            }
          }
        }
      }
    }
  }

  /** Each starter scores at most the leading points, so the total is bounded by the
      number of starters times the leading points. */
  lemma {:induction false} TotalAtMostLeaderTimesCount(starters: seq<Player>, week: string, bound: real)
    requires forall j :: 0 <= j < |starters| ==> WeekPoints(starters[j], week) <= bound
    ensures StarterTotal(starters, week) <= (|starters| as real) * bound
    decreases |starters|
  {
    if starters != [] {
      var prefix := starters[..|starters| - 1];
      forall j | 0 <= j < |prefix| ensures WeekPoints(prefix[j], week) <= bound {
        assert prefix[j] == starters[j];
      }
      TotalAtMostLeaderTimesCount(prefix, week, bound);
      var last := WeekPoints(starters[|starters| - 1], week);
      assert StarterTotal(starters, week) == StarterTotal(prefix, week) + last;
      assert last <= bound;
      assert (|starters| as real) * bound == (|prefix| as real) * bound + bound;
    }
  }

  /** Two starters tied on points: the earlier one stays the leader. */
  lemma TieKeepsEarliest(a: Player, b: Player, week: string)
    requires WeekPoints(a, week) == WeekPoints(b, week)
    ensures LeadOver([a, b], week).scorer == Some(a)
  {
    assert [a][..0] == [];
    var first := LeadOver([a], week);
    assert first == Lead(Some(a), Some(WeekPoints(a, week)));
    assert [a, b][..1] == [a];
    assert LeadOver([a, b], week) == LeadStep(first, b, week);
  }

  // ---------------------------------------------------------------------------------
  // Team scores and their order

  /** A team with its scoreboard figures. */
  datatype TeamScore = TeamScore(team: Team, starterTotal: real, leadingScorer: Option<Player>, leadingPoints: real)

  /** The figures of one team, as `teamScores` computes them. */
  function ScoreOf(team: Team, players: seq<Player>, week: string): TeamScore
  {
    var starters := Starters(team, players);
    var lead := LeadOver(starters, week);
    TeamScore(team, StarterTotal(starters, week), lead.scorer, LeadingPoints(lead))
  }

  /** `teams.map(...)`: one score per team, in team order. */
  method TeamScores(teams: seq<Team>, players: seq<Player>, week: string) returns (scores: seq<TeamScore>)
    ensures |scores| == |teams|
    ensures forall i :: 0 <= i < |teams| ==> scores[i] == ScoreOf(teams[i], players, week)
  {
    scores := [];
    for i := 0 to |teams|
      invariant |scores| == i
      invariant forall k :: 0 <= k < i ==> scores[k] == ScoreOf(teams[k], players, week)
    {
      var starters := ResolveStarters(teams[i], players);
      var total := StarterTotal(starters, week);
      var leader, points := LeadingScorer(starters, week);
      var score := TeamScore(teams[i], total, leader, points);
      assert score == ScoreOf(teams[i], players, week);
      scores := scores + [score];
    }
  }

  /** A team with no lineup scores 0 and has no leader. */
  lemma NoLineupScoresNothing(team: Team, players: seq<Player>, week: string)
    requires team.lineup.None?
    ensures ScoreOf(team, players, week) == TeamScore(team, 0.0, None, 0.0)
  {
  }

  /** The comparator `(a, b) => b.starterTotal - a.starterTotal` as "a may precede b". */
  predicate TotalAtLeast(a: TeamScore, b: TeamScore)
  {
    a.starterTotal >= b.starterTotal
  }

  /** `[...teamScores].sort(...)`: a sorted copy; the input list is a value and stays as
      it was. */
  function SortedTeams(scores: seq<TeamScore>): (r: seq<TeamScore>)
    ensures multiset(r) == multiset(scores) && |r| == |scores|
  {
    Sorting.SortBy(scores, TotalAtLeast)
  }

  /** The sorted teams are a permutation of the scores in non-increasing total order. */
  lemma SortedTeamsOrdered(scores: seq<TeamScore>)
    ensures var r := SortedTeams(scores);
      multiset(r) == multiset(scores) &&
      forall i, j :: 0 <= i < j < |r| ==> r[i].starterTotal >= r[j].starterTotal
  {
    assert Sorting.TotalPreorder(TotalAtLeast);
    Sorting.SortBySorted(scores, TotalAtLeast);
  }
}
