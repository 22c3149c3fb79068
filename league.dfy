/** The league's entities as the front-end pages receive them, and the cumulative
    win-loss count that src/Pages/TeamPage.tsx and src/Pages/Fantasy.tsx both compute
    with the same loop. */
module League {
  import opened Wrappers
  import opened LineupSlots
  import opened WeekKeys

  /** A weekly result, "W" or "L". */
  datatype Outcome = W | L

  /** Week key to result; only weeks with a stored result are present. */
  type WeekRecord = map<string, Outcome>

  /** A lineup as the server stores it: slot name to player id, or null. */
  type RawLineup = map<string, Option<string>>

  /** A team record as the server sends it. `lineup` is the legacy single-week field. */
  datatype Team = Team(
    id: string,
    name: string,
    lineup: Option<RawLineup>,
    lineups: Option<map<string, RawLineup>>,
    record: Option<WeekRecord>)

  /** A player; `points` maps week keys to that week's score. */
  datatype Player = Player(
    id: string,
    name: string,
    teamId: Option<string>,
    position: Option<Slot>,
    points: map<string, real>)

  /** A player's score for a week; a week without a score counts as zero. */
  function WeekPoints(p: Player, week: string): real
  {
    if week in p.points then p.points[week] else 0.0
  }

  /** No two players share an id. */
  ghost predicate DistinctIds(players: seq<Player>)
  {
    forall i, j :: 0 <= i < j < |players| ==> players[i].id != players[j].id
  }

  /** `players.find((p) => p._id === id)`, as the index of the first match. */
  function FindById(players: seq<Player>, id: string): (r: Option<nat>)
    ensures r.Some? ==> r.value < |players| && players[r.value].id == id
    ensures r.Some? ==> forall j :: 0 <= j < r.value ==> players[j].id != id
    ensures r.None? ==> forall j :: 0 <= j < |players| ==> players[j].id != id
    decreases |players|
  {
    if players == [] then None
    else if players[0].id == id then Some(0)
    else match FindById(players[1..], id)
      case Some(k) => Some(k + 1)
      case None => None
  }

  /** With distinct ids, the player found for a roster member's id is that member. */
  lemma FindByIdDistinct(players: seq<Player>, k: nat)
    requires DistinctIds(players) && k < |players|
    ensures FindById(players, players[k].id) == Some(k)
  {
  }

  /** `players.filter((p) => p.teamId === teamId)`: the team's players in list order. */
  function OnTeam(players: seq<Player>, teamId: string): (r: seq<Player>)
    ensures |r| <= |players|
    ensures forall p :: p in r <==> p in players && p.teamId == Some(teamId)
    decreases |players|
  {
    if players == [] then []
    else
      assert players == [players[0]] + players[1..];
      var rest := OnTeam(players[1..], teamId);
      if players[0].teamId == Some(teamId) then [players[0]] + rest else rest
  }

  /** Filtering distributes over concatenation, so the filter keeps list order. */
  lemma {:induction false} OnTeamAppend(a: seq<Player>, b: seq<Player>, teamId: string)
    ensures OnTeam(a + b, teamId) == OnTeam(a, teamId) + OnTeam(b, teamId)
    decreases |a|
  {
    if a == [] {
      assert a + b == b;
    } else {
      assert (a + b)[1..] == a[1..] + b;
      OnTeamAppend(a[1..], b, teamId);
    }
  }

  /** A single player is kept exactly when it belongs to the team. */
  lemma OnTeamSingle(p: Player, teamId: string)
    ensures OnTeam([p], teamId) == if p.teamId == Some(teamId) then [p] else []
  {
    assert [p][1..] == [];
  }

  /** A player id is present: the source skips null, undefined and "" alike. */
  predicate IsPresentId(v: Option<string>)
  {
    v.Some? && v.value != ""
  }

  /** The player id a raw lineup gives a slot, if that id is present. */
  function SlotPlayerId(raw: RawLineup, s: Slot): (r: Option<string>)
    ensures r.Some? <==> Name(s) in raw && IsPresentId(raw[Name(s)])
    ensures r.Some? ==> r == raw[Name(s)]
  {
    if Name(s) in raw && IsPresentId(raw[Name(s)]) then raw[Name(s)] else None
  }

  /** Number of the weeks 1..n whose stored result is o. */
  function CountThrough(rec: WeekRecord, o: Outcome, n: nat): (c: nat)
    ensures c <= n
    decreases n
  {
    if n == 0 then 0
    else CountThrough(rec, o, n - 1) + (if WeekKey(n) in rec && rec[WeekKey(n)] == o then 1 else 0)
  }

  datatype Tally = Tally(wins: nat, losses: nat)

  /** The record "as of" a week: results of weeks 1..N, where N is the number of the
      week key; an absent record or an unparsable week gives 0-0. */
  function RecordThrough(record: Option<WeekRecord>, week: string): Tally
  {
    match (record, ParseWeek(week))
    case (Some(rec), Some(n)) => Tally(CountThrough(rec, W, n), CountThrough(rec, L, n))
    case _ => Tally(0, 0)
  }

  /** getCumulativeRecord: count "W" and "L" over the keys week1..weekN. */
  method CumulativeRecord(record: Option<WeekRecord>, week: string) returns (t: Tally)
    ensures t == RecordThrough(record, week)
    ensures record.None? ==> t == Tally(0, 0)
  {
    if record.None? {
      return Tally(0, 0);
    }
    var rec := record.value;
    var wins, losses := 0, 0;
    var weekNum := ParseWeek(week);
    if weekNum.None? {
      return Tally(0, 0);
    }
    var n := weekNum.value;
    var i := 1;
    while i <= n
      invariant 1 <= i <= n + 1
      invariant wins == CountThrough(rec, W, i - 1)
      invariant losses == CountThrough(rec, L, i - 1)
    {
      var key := WeekKey(i);
      if key in rec && rec[key] == W {
        wins := wins + 1;
      }
      if key in rec && rec[key] == L {
        losses := losses + 1;
      }
      i := i + 1;
    }
    t := Tally(wins, losses);
  }

  /** At most one result per week: wins + losses never exceeds the number of weeks. */
  lemma {:induction false} CountThroughBound(rec: WeekRecord, n: nat)
    ensures CountThrough(rec, W, n) + CountThrough(rec, L, n) <= n
    decreases n
  {
    if n > 0 {
      CountThroughBound(rec, n - 1);
    }
  }

  /** The cumulative record as of week N has at most N decided games. */
  lemma RecordThroughBound(record: Option<WeekRecord>, week: string)
    ensures var t := RecordThrough(record, week);
            ParseWeek(week).Some? ==> t.wins + t.losses <= ParseWeek(week).value
    ensures ParseWeek(week).None? ==> RecordThrough(record, week) == Tally(0, 0)
  {
    if record.Some? && ParseWeek(week).Some? {
      CountThroughBound(record.value, ParseWeek(week).value);
    }
  }

  /** Counting through a later week never counts fewer results. */
  lemma {:induction false} CountThroughMonotone(rec: WeekRecord, o: Outcome, m: nat, n: nat)
    requires m <= n
    ensures CountThrough(rec, o, m) <= CountThrough(rec, o, n)
    decreases n
  {
    if m < n {
      CountThroughMonotone(rec, o, m, n - 1);
    }
  }

  /** Raising the queried week never decreases wins or losses. */
  lemma RecordThroughMonotone(record: Option<WeekRecord>, m: nat, n: nat)
    requires m <= n
    ensures RecordThrough(record, WeekKey(m)).wins <= RecordThrough(record, WeekKey(n)).wins
    ensures RecordThrough(record, WeekKey(m)).losses <= RecordThrough(record, WeekKey(n)).losses
  {
    ParseWeekKey(m);
    ParseWeekKey(n);
    if record.Some? {
      CountThroughMonotone(record.value, W, m, n);
      CountThroughMonotone(record.value, L, m, n);
    }
  }

  /** A result stored for a week after N does not change the count through N. */
  lemma {:induction false} CountThroughIgnoresLater(rec: WeekRecord, o: Outcome, n: nat, k: nat, r: Outcome)
    requires n < k
    ensures CountThrough(rec[WeekKey(k) := r], o, n) == CountThrough(rec, o, n)
    decreases n
  {
    if n > 0 {
      ParseWeekKey(n);
      ParseWeekKey(k);
      assert WeekKey(n) != WeekKey(k);
      CountThroughIgnoresLater(rec, o, n - 1, k, r);
    }
  }

  /** Results of weeks after the queried one do not count. */
  lemma RecordThroughIgnoresLater(rec: WeekRecord, n: nat, k: nat, r: Outcome)
    requires n < k
    ensures RecordThrough(Some(rec[WeekKey(k) := r]), WeekKey(n)) == RecordThrough(Some(rec), WeekKey(n))
  {
    ParseWeekKey(n);
    CountThroughIgnoresLater(rec, W, n, k, r);
    CountThroughIgnoresLater(rec, L, n, k, r);
  }

  /** A record {week1: W, week2: L, week5: W} is 1-1 as of week 3 and 2-1 as of week 5. */
  lemma RecordThroughExample()
    ensures var rec := map[WeekKey(1) := W, WeekKey(2) := L, WeekKey(5) := W];
            RecordThrough(Some(rec), WeekKey(3)) == Tally(1, 1) &&
            RecordThrough(Some(rec), WeekKey(5)) == Tally(2, 1)
  {
    var rec := map[WeekKey(1) := W, WeekKey(2) := L, WeekKey(5) := W];
    ParseWeekKey(1); ParseWeekKey(2); ParseWeekKey(3); ParseWeekKey(4); ParseWeekKey(5);
    assert WeekKey(3) !in rec && WeekKey(4) !in rec;
  }
}
