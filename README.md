# Fantasy league front end: scoring and lineup model

A Dafny model of the derived-value logic in the front end of a small fantasy-football
league manager. The pages receive teams (with per-week lineups and per-week W/L records)
and players (with per-week points), and compute from them:

- the closed vocabulary of five lineup slots (`src/constants/lineup.ts`);
- on the team page, lineups resolved against the roster, the greedy default lineup,
  the "nearest earlier week" lineup fallback, starter point totals, the bench, the
  bench/lineup edits and the cumulative record as of a week (`src/Pages/TeamPage.tsx`);
- on the standings page, record totals, the streak label, the win-percentage sort,
  competition ranking ("1, 1, 3"), ordinal suffixes, rank themes and team initials
  (`src/Pages/Standings.tsx`);
- on the scoreboard, each team's starters, their total, the leading scorer, and the teams
  sorted by total (`src/Pages/Scoreboard.tsx`);
- on the admin dashboard, the team filter of the points form and the list updates after
  a points or record save (`src/Pages/Fantasy.tsx`).

Modules follow the source files: `LineupSlots`, `TeamPage`, `Standings`, `Scoreboard`,
`Fantasy`. Shared pieces are `Wrappers` (Option), `WeekKeys` (week keys and their
numbers), `League` (the entities and the cumulative record, whose loop is the same in
TeamPage.tsx and Fantasy.tsx), `Sorting` (a stable sort by comparator standing in for
`Array.prototype.sort`) and `Collections` (finite-set facts).

Loops in the source are methods with loop invariants, each proved equal to a
specification function: `MapServerLineup`, `BuildDefaultLineup`, `CumulativeRecord`,
`ComputeRecordTotals`, `ComputeStreakLabel`, `AssignRanks`, `ResolveStarters` and
`LeadingScorer`. The lemmas about those functions state what the pages promise.
Copy-and-update code (`moveToBench`, `moveToLineup`, the `map` replacements of the
dashboard) and map/filter/reduce expressions are functions.

Behaviour of the code that the model keeps:

- Slot names are the capitalised `"Passing"`, …, `"Kicking"`, matched case-sensitively.
- `lineupToPayload` sends all five slots, with `null` for an empty one.
- The standings sort puts fewer losses first at equal win percentage and wins.
- The front end does not lower-case or trim week keys.

## Model

| member | source | states |
|---|---|---|
| `LineupSlots.SlotsAreExact` | src/constants/lineup.ts:1-7 | LINEUP_SLOTS is exactly "Passing", "Rushing", "Receiving", "Defense", "Kicking" in that order, five distinct slots |
| `LineupSlots.SlotNames` | src/constants/lineup.ts:1-7 | the name array lists the name of each slot at that slot's position |
| `LineupSlots.SlotOf` | src/constants/lineup.ts:11-12 | a string names a slot exactly when it is one of the five names, and then it is that slot's name |
| `LineupSlots.IsLineupSlotIffName` | src/constants/lineup.ts:11-12 | isLineupSlot holds iff the value is a string equal to a slot name; non-strings are rejected |
| `LineupSlots.SlotMatchIsCaseSensitive` | src/constants/lineup.ts:12 | "passing" and "KICKING" are not slots, "Passing" is, a non-string is not |
| `LineupSlots.NormalizeLineupSlot` | src/constants/lineup.ts:14-15 | the result is defined iff the value is a slot name, and then it is the value unchanged |
| `LineupSlots.NormalizeIdempotent` | src/constants/lineup.ts:14-15 | normalising an already normalised result gives the same result |
| `WeekKeys.ParseWeek` | src/Pages/TeamPage.tsx:149-152 | a key that parses to n is exactly the key `week${n}` |
| `WeekKeys.ParseWeekKey` | src/Pages/TeamPage.tsx:149-152 | the key the pages build for week n parses back to n |
| `WeekKeys.ParseWeekIff` | src/Pages/TeamPage.tsx:149-152 | a key parses to n iff it is the key of week n, so distinct weeks have distinct keys |
| `WeekKeys.NumberRoundTrip` | src/Pages/TeamPage.tsx:149-152 | a number written in decimal has no superfluous leading zero and reads back as that number |
| `WeekKeys.TextRoundTrip` | src/Pages/TeamPage.tsx:149-152 | decimal digits without a superfluous leading zero are the decimal text of their value |
| `WeekKeys.ParseWeekExamples` | src/Pages/TeamPage.tsx:149-152 | "week3" is 3 and "week12" is 12; "week", "w3" and "week-3" do not parse |
| `League.FindById` | src/Pages/TeamPage.tsx:58 | the index found is the first player with that id; none means no player has it |
| `League.FindByIdDistinct` | src/Pages/TeamPage.tsx:58 | with distinct ids, looking up a roster member's id finds that member |
| `League.OnTeam` | src/Pages/Scoreboard.tsx:58 | the filter keeps exactly the players whose teamId is the team |
| `League.OnTeamAppend` | src/Pages/Scoreboard.tsx:58 | filtering distributes over concatenation, so list order is kept |
| `League.SlotPlayerId` | src/Pages/TeamPage.tsx:56-57 | a slot yields an id only when the raw lineup holds a non-empty id for that slot name |
| `League.CumulativeRecord` | src/Pages/TeamPage.tsx:477-488 | the loop counts W and L over week1..weekN; an absent record gives 0-0 |
| `League.RecordThroughBound` | src/Pages/TeamPage.tsx:481-486 | as of week N, wins + losses is at most N; an unparsable week gives 0-0 |
| `League.RecordThroughMonotone` | src/Pages/Fantasy.tsx:155-166 | raising the queried week never decreases wins or losses |
| `League.RecordThroughIgnoresLater` | src/Pages/Fantasy.tsx:159-165 | a result stored for a week after N does not change the record as of N |
| `League.RecordThroughExample` | src/Pages/Fantasy.tsx:155-166 | {week1: W, week2: L, week5: W} is 1-1 as of week 3 and 2-1 as of week 5 |
| `TeamPage.ServerLineup` | src/Pages/TeamPage.tsx:51-63 | a slot is filled iff the raw lineup names a present id for it that a roster player has, and then it holds a roster player with that id |
| `TeamPage.MapServerLineup` | src/Pages/TeamPage.tsx:51-63 | the slot loop computes exactly ServerLineup |
| `TeamPage.MapServerLineups` | src/Pages/TeamPage.tsx:79-88 | same weeks as the raw map, each week resolved by ServerLineup; nothing for an absent map |
| `TeamPage.LineupToPayload` | src/Pages/TeamPage.tsx:144-147 | exactly the five slot names, each with the starter's id or null |
| `TeamPage.PayloadSlotRoundTrip` | src/Pages/TeamPage.tsx:51-147 | for one slot: the resolved payload fills the slot iff the lineup did, with the same player |
| `TeamPage.PayloadRoundTrip` | src/Pages/TeamPage.tsx:144-147 | resolving a saved payload against a roster with distinct ids gives back the saved lineup |
| `TeamPage.PayloadsRoundTrip` | src/Pages/TeamPage.tsx:79-88 | the same round trip holds for every week of a lineups map |
| `TeamPage.BuildDefaultLineup` | src/Pages/TeamPage.tsx:90-115 | the two slot loops compute DefaultLineup; every starter is a roster player and no id fills two slots |
| `TeamPage.FindPositioned` | src/Pages/TeamPage.tsx:95-97 | the first roster player of the slot's position whose id is not taken |
| `TeamPage.FindUntaken` | src/Pages/TeamPage.tsx:106 | the first roster player whose id is not taken |
| `TeamPage.PositionStepFacts` | src/Pages/TeamPage.tsx:95-101 | one slot of the first pass keeps the starters distinct and at their own position, fills at most that slot, and with distinct ids fills it with the first roster player of that position |
| `TeamPage.FillStepFacts` | src/Pages/TeamPage.tsx:105-111 | one slot of the second pass keeps the starters distinct and filled slots unchanged, and fills the slot unless every roster id is taken |
| `TeamPage.PositionPassFacts` | src/Pages/TeamPage.tsx:94-102 | the first pass keeps starters distinct and at their own position, and gives each slot the first roster player of that position |
| `TeamPage.FillPassFacts` | src/Pages/TeamPage.tsx:104-112 | the second pass never replaces a filled slot and fills every slot unless every roster id is used |
| `TeamPage.DefaultLineupFacts` | src/Pages/TeamPage.tsx:90-115 | only roster players, no id twice, the first player of each held position in that slot, and min(5, roster size) slots filled with distinct ids |
| `TeamPage.FallbackWeek` | src/Pages/TeamPage.tsx:126-139 | the largest stored week at or before the target, else the largest stored week; none iff no key parses |
| `TeamPage.PickLineupForWeek` | src/Pages/TeamPage.tsx:117-142 | the exact week first; the fallback when the week does not parse; otherwise a stored lineup or the fallback |
| `TeamPage.PickLineupOrder` | src/Pages/TeamPage.tsx:122-141 | the nearest earlier stored week wins, else the highest stored week, and the fallback only when no key parses |
| `TeamPage.PickLineupBetween` | src/Pages/TeamPage.tsx:122-141 | with weeks 1 and 3 stored, week 2 resolves to week 1 |
| `TeamPage.PickLineupAfter` | src/Pages/TeamPage.tsx:122-141 | with weeks 1 and 3 stored, week 5 resolves to week 3 |
| `TeamPage.PickLineupBefore` | src/Pages/TeamPage.tsx:122-141 | with weeks 1 and 3 stored, week 0 resolves to week 3, the highest |
| `TeamPage.SyncSelectedWeek` | src/Pages/TeamPage.tsx:415-457 | no stored week changes, only the selected week can be added, and it is present iff it was, or some key parses, or nothing was stored and the roster is non-empty |
| `TeamPage.SyncAgreesWithPick` | src/Pages/TeamPage.tsx:432-455 | for a parsable selected week, the effect stores what pickLineupForWeek resolves |
| `TeamPage.SyncUnparsedTakesHighest` | src/Pages/TeamPage.tsx:432-455 | for a new selected week that does not parse, the effect stores the highest stored week's lineup, while pickLineupForWeek gives its fallback |
| `TeamPage.SyncFromEmpty` | src/Pages/TeamPage.tsx:419-424 | with nothing stored and a non-empty roster, the effect stores the default lineup under the selected week |
| `TeamPage.SyncIdempotent` | src/Pages/TeamPage.tsx:415-417 | running the effect a second time changes nothing |
| `TeamPage.SumStarterPoints` | src/Pages/TeamPage.tsx:160-166 | 0 for an absent lineup, else the sum over the five slots of the starter's week points, with empty slots and missing weeks counting 0 |
| `TeamPage.SumWithoutSlot` | src/Pages/TeamPage.tsx:160-166 | emptying one slot lowers the total by exactly that slot's points |
| `TeamPage.SumWithSlot` | src/Pages/TeamPage.tsx:160-166 | filling one slot replaces exactly that slot's points by the new player's |
| `TeamPage.StarterIds` | src/Pages/TeamPage.tsx:190-192 | the non-empty ids of the lineup's starters |
| `TeamPage.Bench` | src/Pages/TeamPage.tsx:188-194 | exactly the roster players whose id is not a starter id |
| `TeamPage.BenchAppend` | src/Pages/TeamPage.tsx:193 | the bench of a split roster is the benches of the parts, so roster order is kept |
| `TeamPage.BenchSize` | src/Pages/TeamPage.tsx:188-194 | with distinct non-empty ids, bench size plus starter count is the roster size |
| `TeamPage.DefaultBenchSize` | src/Pages/TeamPage.tsx:188-194 | under the default lineup, roster size minus min(5, roster size) players sit on the bench |
| `TeamPage.MoveToBench` | src/Pages/TeamPage.tsx:501-511 | removes exactly that slot from the selected week; a no-op when the slot is empty; other weeks unchanged |
| `TeamPage.MoveToLineup` | src/Pages/TeamPage.tsx:513-526 | writes the player into its own position's slot of the selected week; a no-op without a position; other slots and weeks unchanged |
| `TeamPage.BenchThenLineup` | src/Pages/TeamPage.tsx:501-526 | benching a starter who plays its own slot and moving it back restores the lineups |
| `TeamPage.LineupThenBench` | src/Pages/TeamPage.tsx:501-526 | moving a player into an empty slot and benching it again restores the lineups |
| `TeamPage.MoveToBenchPoints` | src/Pages/TeamPage.tsx:501-511 | benching lowers the week's starter total by the benched player's points |
| `TeamPage.MoveToLineupPoints` | src/Pages/TeamPage.tsx:513-526 | moving a player in replaces the slot's points by the player's |
| `TeamPage.MoveToBenchFreesPlayer` | src/Pages/TeamPage.tsx:501-511 | a benched starter whose id no other slot holds appears on the bench |
| `TeamPage.MoveToLineupLeavesBench` | src/Pages/TeamPage.tsx:513-526 | a player moved into the lineup is no longer on the bench |
| `TeamPage.InitialLineups` | src/Pages/TeamPage.tsx:278-290 | server lineups if any; else the legacy lineup under the current week; else the non-empty default lineup of a non-empty roster |
| `Standings.TotalsOf` | src/Pages/Standings.tsx:95-110 | totalGames = wins + losses; winPct is 0 with no games, else wins / totalGames, and lies in [0, 1] |
| `Standings.ComputeRecordTotals` | src/Pages/Standings.tsx:95-110 | the pass over the stored results computes TotalsOf |
| `Standings.TotalGamesIsWeeks` | src/Pages/Standings.tsx:102-107 | totalGames is the number of stored weeks |
| `Standings.KeyBeforeFacts` | src/Pages/Standings.tsx:118-124 | the streak order (week number, unparsable last, then key text) is a strict total order |
| `Standings.KeyLeOrder` | src/Pages/Standings.tsx:124 | the streak comparator is a total preorder that is antisymmetric, so the sorted order is unique |
| `Standings.TrailingRunFacts` | src/Pages/Standings.tsx:129-134 | the trailing run of a result: its entries all have that result and the entry before them does not |
| `Standings.CountTrailing` | src/Pages/Standings.tsx:129-134 | the backward loop counts the trailing run |
| `Standings.StreakOf` | src/Pages/Standings.tsx:126-136 | none iff no results; else the last result, with a count between 1 and the number of results |
| `Standings.StreakOfFacts` | src/Pages/Standings.tsx:126-134 | the last `count` results all equal the streak's result, and the one before them (if any) differs |
| `Standings.LabelRoundTrip` | src/Pages/Standings.tsx:136 | the label's first letter is the result and the rest is the count in decimal |
| `Standings.ComputeStreakLabel` | src/Pages/Standings.tsx:112-137 | sorting the entries in any starting order and counting back computes StreakLabelOf |
| `Standings.ChronologicalFacts` | src/Pages/Standings.tsx:118-124 | the weeks in streak order are exactly the record's weeks, each once, sorted by the streak comparator |
| `Standings.SortedEntries` | src/Pages/Standings.tsx:118-124 | sorting the entry keys, whatever their starting order, gives the streak order |
| `Standings.LatestWeekLast` | src/Pages/Standings.tsx:118-126 | the week the streak counts back from comes after every other week of the record |
| `Standings.StreakLabelNoneIff` | src/Pages/Standings.tsx:113-116 | the label is null iff the record is absent or empty |
| `Standings.RecordStreakFacts` | src/Pages/Standings.tsx:118-136 | the result is that of the latest week; the count is between 1 and the number of weeks and is the length of the trailing run |
| `Standings.StreakExample` | src/Pages/Standings.tsx:118-136 | weeks 1..3 with W, L, L give "L2" |
| `Standings.AssignRanks` | src/Pages/Standings.tsx:184-197 | each team's rank is 1 + the index of the first team of its run of equal wins-losses-games keys |
| `Standings.RankKeyInjective` | src/Pages/Standings.tsx:190 | two keys are equal iff wins, losses and games are equal |
| `Standings.TiedTeamsShareRank` | src/Pages/Standings.tsx:184-197 | in a sorted table, teams with equal keys share a rank however far apart they are |
| `Standings.RankStep` | src/Pages/Standings.tsx:188-195 | one loop step: a new key takes rank position + 1, a repeated key keeps the previous rank, and either is 1 + the start of the run |
| `Standings.NewKeyRank` | src/Pages/Standings.tsx:191-193 | a team whose key differs from the one above it is ranked by its own position |
| `Standings.ComputeStandings` | src/Pages/Standings.tsx:170-200 | decorate, sort by the comparator, then rank every row by competition ranking |
| `Standings.StandingsSorted` | src/Pages/Standings.tsx:171-182 | the sorted standings are a permutation of the decorated teams, ordered by win percentage, then wins descending, then losses ascending |
| `Standings.StandingsRanks` | src/Pages/Standings.tsx:184-197 | the first rank is 1, ranks never decrease, rank is at most position + 1, and equal records share a rank |
| `Standings.RankExample` | src/Pages/Standings.tsx:184-197 | records 3-0, 3-0, 2-1 rank 1, 1, 3 |
| `Standings.ThemeBands` | src/Pages/Standings.tsx:74-78 | ranks up to 3 get theme 0, ranks 4..6 theme 1, higher ranks theme 2; the theme never improves as the rank worsens |
| `Standings.FormatOrdinalParts` | src/Pages/Standings.tsx:139-144 | the rank written in decimal without leading zeros, followed by its two-letter suffix |
| `Standings.SuffixRules` | src/Pages/Standings.tsx:139-144 | "th" for rank mod 100 in 11..13; otherwise "st", "nd" and "rd" for last digits 1, 2 and 3, and "th" for last digits 0 and 4..9; only the last two digits matter |
| `Standings.OrdinalExamplesSmall` | src/Pages/Standings.tsx:139-144 | 1st, 2nd, 3rd, 4th |
| `Standings.OrdinalExamplesTeens` | src/Pages/Standings.tsx:142 | 11th, 12th, 13th |
| `Standings.OrdinalExamplesTwenties` | src/Pages/Standings.tsx:143 | 21st, 22nd |
| `Standings.OrdinalExampleHundreds` | src/Pages/Standings.tsx:139-144 | 111th, 101st |
| `Standings.TrimStrips` | src/Pages/Standings.tsx:81 | the trimmed name is a slice of the name with only whitespace before and after it, and it neither starts nor ends with whitespace |
| `Standings.SplitWs` | src/Pages/Standings.tsx:83 | the words contain no whitespace, and there is one word iff the text has no whitespace |
| `Standings.SplitWsSqueeze` | src/Pages/Standings.tsx:83 | the words joined by single spaces are the text with each whitespace run squeezed to one space, so the words are exactly the runs of non-whitespace, in order |
| `Standings.InitialsShape` | src/Pages/Standings.tsx:80-88 | "??" for a name that is blank after trimming; always one or two characters, none of them whitespace or a lower-case letter |
| `Standings.InitialsOfInitials` | src/Pages/Standings.tsx:80-88 | one or two characters without whitespace or lower-case letters are their own initials |
| `Standings.SingleWordInitials` | src/Pages/Standings.tsx:84-86 | a one-word name gives its first two characters upper-cased |
| `Standings.MultiWordInitials` | src/Pages/Standings.tsx:87 | a name of several words gives the upper-cased first letters of the first two words |
| `Standings.InitialsIdempotent` | src/Pages/Standings.tsx:80-88 | the initials of a name's initials are the same initials |
| `Standings.LeadingSpaceIgnored` | src/Pages/Standings.tsx:81 | leading whitespace does not change the initials |
| `Standings.TrailingSpaceIgnored` | src/Pages/Standings.tsx:81 | trailing whitespace does not change the initials |
| `Standings.TwoWordInitials` | src/Pages/Standings.tsx:87 | two space-free words joined by a space give the upper-cased first letter of each |
| `Standings.InitialsExampleTwoWords` | src/Pages/Standings.tsx:87 | "Gator Nation" gives "GN" |
| `Standings.InitialsExampleOneWord` | src/Pages/Standings.tsx:84-86 | "gators" gives "GA" |
| `Standings.InitialsExampleBlank` | src/Pages/Standings.tsx:82 | a name of spaces gives "??" |
| `Scoreboard.SlotStarter` | src/Pages/Scoreboard.tsx:64-67 | a slot's starter is a team player whose id the slot holds; none when the id is absent or no team player has it |
| `Scoreboard.Starters` | src/Pages/Scoreboard.tsx:61-70 | no starters without a lineup, and never more than five |
| `Scoreboard.ResolveStarters` | src/Pages/Scoreboard.tsx:57-70 | the slot loop computes Starters |
| `Scoreboard.StartersOnTeam` | src/Pages/Scoreboard.tsx:58-69 | every starter is a player of this team whose id the lineup holds for some slot |
| `Scoreboard.StartersInSlotOrder` | src/Pages/Scoreboard.tsx:63-69 | the starters are the Passing, Rushing, Receiving, Defense and Kicking starters, at most one each, in that order |
| `Scoreboard.StarterTotalAppend` | src/Pages/Scoreboard.tsx:72-75 | the total of a concatenation is the sum of the totals |
| `Scoreboard.StarterTotalMatchesTeamPage` | src/Pages/Scoreboard.tsx:72-75 | the starter total equals sumStarterPoints over the same resolved lineup, missing weeks counting 0 |
| `Scoreboard.LeadingScorer` | src/Pages/Scoreboard.tsx:77-91 | the forEach computes the leader and the reported points of LeadOver |
| `Scoreboard.LeadOver` | src/Pages/Scoreboard.tsx:77-85 | there is a leader iff there are starters |
| `Scoreboard.LeadFacts` | src/Pages/Scoreboard.tsx:77-91 | no starters: no leader and 0 points; otherwise the leader is the first starter with the maximum week points, every starter scores at most that, every earlier one strictly less |
| `Scoreboard.TieKeepsEarliest` | src/Pages/Scoreboard.tsx:81 | with equal points the earlier starter stays the leader |
| `Scoreboard.TotalAtMostLeaderTimesCount` | src/Pages/Scoreboard.tsx:72-86 | the total is at most the number of starters times the leading points |
| `Scoreboard.TeamScores` | src/Pages/Scoreboard.tsx:57-93 | one score per team, in team order, each the team's starters' total and leader |
| `Scoreboard.NoLineupScoresNothing` | src/Pages/Scoreboard.tsx:62 | a team without a lineup scores 0 with no leader |
| `Scoreboard.SortedTeams` | src/Pages/Scoreboard.tsx:95 | the sorted copy is a permutation of the scores |
| `Scoreboard.SortedTeamsOrdered` | src/Pages/Scoreboard.tsx:95 | the sorted copy is a permutation in non-increasing starter-total order |
| `Sorting.InsertSorted` | src/Pages/Standings.tsx:177-182 | inserting into a sorted list keeps it sorted |
| `Sorting.SortedUnique` | src/Pages/Standings.tsx:118-124 | under a total, antisymmetric order, two sorted permutations of the same items are equal |
| `Sorting.SortBySorted` | src/Pages/Standings.tsx:177-182 | sorting by a total preorder gives an ordered permutation of the input |
| `Fantasy.PlayersForPoints` | src/Pages/Fantasy.tsx:168-170 | empty when no team is chosen, else exactly the players of that team |
| `Fantasy.PlayersForPointsOrder` | src/Pages/Fantasy.tsx:168-170 | the list keeps roster order |
| `Fantasy.SetPoints` | src/Pages/Fantasy.tsx:105-123 | no change without a selected player, for a NaN value or a failed request; otherwise the returned player replaces its id's entries; the length never changes |
| `Fantasy.ReplacePlayerFacts` | src/Pages/Fantasy.tsx:114-116 | the player with the returned id is replaced by the returned player; every other player and every id is unchanged |
| `Fantasy.ReplaceAbsentPlayer` | src/Pages/Fantasy.tsx:114-116 | when no player has the returned id, the list is unchanged |
| `Fantasy.ReplacePlayerIdempotent` | src/Pages/Fantasy.tsx:114-116 | applying the same update twice is applying it once |
| `Fantasy.ReplacePlayerFound` | src/Pages/Fantasy.tsx:114-116 | with distinct ids, the updated player sits at the position it replaced and ids stay distinct |
| `Fantasy.SetRecord` | src/Pages/Fantasy.tsx:126-152 | no change without a team or a result, or for a failed request; otherwise the matching team's record is replaced; the length never changes |
| `Fantasy.ReplaceRecordFacts` | src/Pages/Fantasy.tsx:140-146 | only the matching team's record is replaced, by the returned record or an empty one; other teams and their order are unchanged |
| `Fantasy.ReplaceRecordTally` | src/Pages/Fantasy.tsx:140-146 | the updated team's cumulative record is that of the returned record |
| `Fantasy.ReplaceRecordIdempotent` | src/Pages/Fantasy.tsx:140-146 | applying the same update twice is applying it once |

## Left out

- Fetching, `useEffect`/`useState` plumbing, async cancellation, the opponent cache and
  `loadOpponent` (src/Pages/TeamPage.tsx:179, 342-412), and the lineup auto-save
  `saveLineup` (src/Pages/TeamPage.tsx:196-232), including the save that `moveToBench`,
  `moveToLineup` and `toggleEditing` start while editing. Server responses are parameters
  (`Option<Player>`, `Option<Team>`, `None` for a failed request).
- `extractPlayerId` and `mapServerPlayer` (src/Pages/TeamPage.tsx:36-49, 65-77) probe the
  shape of JSON values. Ids are taken to be strings already.
- `parseInt` quirks: `ParseWeek` accepts exactly `"week"` followed by decimal digits
  without a superfluous leading zero. Keys such as `"week03"`, `"3"` or `"week3x"`,
  which `parseInt` would read as 3, count as keys that do not parse. So do signed keys
  such as `"week-3"`, which `parseInt` reads as -3, a week number below every target.
  Week numbers are naturals. This makes a week's key unique, so the lineup fallback
  never has two keys with the same number.
- Floating point: points are Dafny `real`s and win percentages are exact quotients.
  NaN appears only in the `setPoints` guard (`Option<real>`, `None` for NaN). `toFixed`
  display formatting is not modelled. The difference between `|| 0` and `?? 0` for a
  stored NaN score is not modelled.
- The `Math.random()` tie-breaker of the standings (src/Pages/Standings.tsx:159, 181) is
  dropped. The sort is a stable sort, so tied teams keep input order. Only the shared rank
  of tied teams is proved, not their order.
- `localeCompare` is modelled as lexicographic order by character code. `toUpperCase`
  changes ASCII letters only. `trim` and `\s` see ASCII whitespace only.
- Strings are sequences of Unicode scalar values, not UTF-16 code units. For a team name
  that starts with a character outside the Basic Multilingual Plane (an emoji, say),
  `getTeamInitials` (src/Pages/Standings.tsx:85, 87) takes a lone surrogate or only part
  of the pair, while `TeamInitials` takes whole characters.
- `Object.entries` order is arbitrary in `ComputeStreakLabel` (`EntryKeys`). The streak
  is proved not to depend on it, because the streak order is total and antisymmetric.
- `Standings.ThemeForRank` returns the index of the theme, not the CSS theme object.
- The team page's rendered `starterTotal` and `benchTotal` sums
  (src/Pages/TeamPage.tsx:492-499) and `formatWeekLabel` (src/Pages/TeamPage.tsx:154-158)
  are display code and are not modelled separately. `SumStarterPoints` covers the same
  starter sum.
- `setPoints` does not check `res.ok`. In the source, an error body would be used as a
  player. The model treats a failed request as `None`.
- Adding teams and players on the dashboard, src/App.tsx, src/Pages/Home.tsx and
  server/index.js are not part of this model.
