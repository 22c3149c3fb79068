/** The admin dashboard's local list logic (src/Pages/Fantasy.tsx): the team filter of the
    points form and the lists the page keeps after a points or record update. The
    cumulative record it shows is League.CumulativeRecord. */
module Fantasy {
  import opened Wrappers
  import opened League

  // ---------------------------------------------------------------------------------
  // The points form's player list

  /** `playersForPoints`: nothing until a team is chosen, then that team's players. */
  function PlayersForPoints(players: seq<Player>, pointsTeam: string): (r: seq<Player>)
    ensures pointsTeam == "" ==> r == []
    ensures pointsTeam != "" ==> forall p :: p in r <==> p in players && p.teamId == Some(pointsTeam)
  {
    if pointsTeam == "" then [] else OnTeam(players, pointsTeam)
  }

  /** The list keeps the roster's order: the players of a concatenation are those of each
      part, in turn, and a single player is listed exactly when it is on the team. */
  lemma PlayersForPointsOrder(a: seq<Player>, b: seq<Player>, p: Player, pointsTeam: string)
    requires pointsTeam != ""
    ensures PlayersForPoints(a + b, pointsTeam) == PlayersForPoints(a, pointsTeam) + PlayersForPoints(b, pointsTeam)
    ensures PlayersForPoints([p], pointsTeam) == if p.teamId == Some(pointsTeam) then [p] else []
  {
    OnTeamAppend(a, b, pointsTeam);
    OnTeamSingle(p, pointsTeam);
  }

  // ---------------------------------------------------------------------------------
  // setPoints

  /** `players.map((p) => (p._id === updated._id ? updated : p))`. */
  function ReplacePlayer(players: seq<Player>, updated: Player): (r: seq<Player>)
    ensures |r| == |players|
    decreases |players|
  {
    if players == [] then []
    else [if players[0].id == updated.id then updated else players[0]] + ReplacePlayer(players[1..], updated)
  }

  /** The player list after `setPoints`. An empty selection or a NaN value (`None`) returns
      before any request; a failed request (`response == None`) leaves the list too;
      otherwise the player the server returns replaces every entry with its id. */
  function SetPoints(players: seq<Player>, pointsPlayer: string, pointsValue: Option<real>,
                     response: Option<Player>): (r: seq<Player>)
    ensures pointsPlayer == "" || pointsValue.None? || response.None? ==> r == players
    ensures pointsPlayer != "" && pointsValue.Some? && response.Some? ==> r == ReplacePlayer(players, response.value)
    ensures |r| == |players|
  {
    if pointsPlayer == "" || pointsValue.None? || response.None? then players
    else ReplacePlayer(players, response.value)
  }

  /** The update keeps every id and position, puts the returned player where its id was
      and leaves every other player as it was. */
  lemma {:induction false} ReplacePlayerFacts(players: seq<Player>, updated: Player)
    ensures var r := ReplacePlayer(players, updated);
      (forall i :: 0 <= i < |r| ==> r[i].id == players[i].id) &&
      (forall i :: 0 <= i < |r| && players[i].id == updated.id ==> r[i] == updated) &&
      (forall i :: 0 <= i < |r| && players[i].id != updated.id ==> r[i] == players[i])
    decreases |players|
  {
    if players != [] {
      ReplacePlayerFacts(players[1..], updated);
      var r := ReplacePlayer(players, updated);
      forall i | 0 < i < |r| ensures r[i] == ReplacePlayer(players[1..], updated)[i - 1] && players[i] == players[1..][i - 1] {
      }
    }
  }

  /** When no listed player has the returned id, the list does not change. */
  lemma {:induction false} ReplaceAbsentPlayer(players: seq<Player>, updated: Player)
    requires forall i :: 0 <= i < |players| ==> players[i].id != updated.id
    ensures ReplacePlayer(players, updated) == players
    decreases |players|
  {
    if players != [] {
      ReplaceAbsentPlayer(players[1..], updated);
      assert players == [players[0]] + players[1..];
    }
  }

  /** Replacing twice with the same player is replacing once. */
  lemma {:induction false} ReplacePlayerIdempotent(players: seq<Player>, updated: Player)
    ensures ReplacePlayer(ReplacePlayer(players, updated), updated) == ReplacePlayer(players, updated)
    decreases |players|
  {
    if players != [] {
      var r := ReplacePlayer(players, updated);
      assert r[1..] == ReplacePlayer(players[1..], updated);
      ReplacePlayerIdempotent(players[1..], updated);
    }
  }

  /** With distinct ids, the returned player is found by its id at the position it
      replaced, and ids stay distinct. */
  lemma ReplacePlayerFound(players: seq<Player>, updated: Player, k: nat)
    requires DistinctIds(players) && k < |players| && players[k].id == updated.id
    ensures DistinctIds(ReplacePlayer(players, updated))
    ensures FindById(ReplacePlayer(players, updated), updated.id) == Some(k)
    ensures ReplacePlayer(players, updated)[k] == updated
  {
    var r := ReplacePlayer(players, updated);
    ReplacePlayerFacts(players, updated);
    FindByIdDistinct(r, k);
  }

  // ---------------------------------------------------------------------------------
  // setRecord

  /** `prev.map((t) => t._id === updated._id ? { ...t, record: updated.record ?? {} } : t)`. */
  function ReplaceRecord(teams: seq<Team>, updated: Team): (r: seq<Team>)
    ensures |r| == |teams|
    decreases |teams|
  {
    if teams == [] then []
    else
      var t := teams[0];
      [if t.id == updated.id then t.(record := Some(updated.record.GetOr(map[]))) else t] +
      ReplaceRecord(teams[1..], updated)
  }

  /** The team list after `setRecord`. A missing team or result returns before any
      request; a failed request leaves the list too; otherwise the matching team's
      record is replaced by the one the server returns, or by an empty one. */
  function SetRecord(teams: seq<Team>, recordTeam: string, recordValue: Option<Outcome>,
                     response: Option<Team>): (r: seq<Team>)
    ensures recordTeam == "" || recordValue.None? || response.None? ==> r == teams
    ensures recordTeam != "" && recordValue.Some? && response.Some? ==> r == ReplaceRecord(teams, response.value)
    ensures |r| == |teams|
  {
    if recordTeam == "" || recordValue.None? || response.None? then teams
    else ReplaceRecord(teams, response.value)
  }

  /** Only the matching team's record changes: ids, names and lineups of every team, and
      everything about the other teams, stay as they were. */
  lemma {:induction false} ReplaceRecordFacts(teams: seq<Team>, updated: Team)
    ensures var r := ReplaceRecord(teams, updated);
      (forall i :: 0 <= i < |r| ==>
         r[i].id == teams[i].id && r[i].name == teams[i].name &&
         r[i].lineup == teams[i].lineup && r[i].lineups == teams[i].lineups) &&
      (forall i :: 0 <= i < |r| && teams[i].id == updated.id ==> r[i].record == Some(updated.record.GetOr(map[]))) &&
      (forall i :: 0 <= i < |r| && teams[i].id != updated.id ==> r[i] == teams[i])
    decreases |teams|
  {
    if teams != [] {
      ReplaceRecordFacts(teams[1..], updated);
      var r := ReplaceRecord(teams, updated);
      forall i | 0 < i < |r| ensures r[i] == ReplaceRecord(teams[1..], updated)[i - 1] && teams[i] == teams[1..][i - 1] {
      }
    }
  }

  /** A record update shows up in the cumulative record of the updated team. */
  lemma ReplaceRecordTally(teams: seq<Team>, updated: Team, k: nat, week: string)
    requires k < |teams| && teams[k].id == updated.id && updated.record.Some?
    ensures RecordThrough(ReplaceRecord(teams, updated)[k].record, week) == RecordThrough(updated.record, week)
  {
    ReplaceRecordFacts(teams, updated);
  }

  /** Replacing twice with the same response is replacing once. */
  lemma {:induction false} ReplaceRecordIdempotent(teams: seq<Team>, updated: Team)
    ensures ReplaceRecord(ReplaceRecord(teams, updated), updated) == ReplaceRecord(teams, updated)
    decreases |teams|
  {
    if teams != [] {
      var r := ReplaceRecord(teams, updated);
      assert r[1..] == ReplaceRecord(teams[1..], updated);
      ReplaceRecordIdempotent(teams[1..], updated);
    }
  }
}
