/** The standings page (src/Pages/Standings.tsx): record totals, the streak label, the
    win-percentage sort, competition ranking and the small display helpers. */
module Standings {
  import opened Wrappers
  import opened WeekKeys
  import opened League
  import Sorting

  // ---------------------------------------------------------------------------------
  // computeRecordTotals

  datatype Totals = Totals(wins: nat, losses: nat, totalGames: nat, winPct: real)

  /** The weeks of a record with the given result. */
  function WeeksWith(rec: WeekRecord, o: Outcome): set<string>
  {
    set k | k in rec && rec[k] == o
  }

  /** What computeRecordTotals computes: wins and losses counted over every stored week,
      their sum, and wins / totalGames (0 for no games). */
  function TotalsOf(record: Option<WeekRecord>): (t: Totals)
    ensures t.totalGames == t.wins + t.losses
    ensures t.totalGames == 0 ==> t.winPct == 0.0
    ensures t.totalGames > 0 ==> t.winPct * (t.totalGames as real) == t.wins as real
    ensures 0.0 <= t.winPct <= 1.0
  {
    match record
    case None => Totals(0, 0, 0, 0.0)
    case Some(rec) =>
      var w := |WeeksWith(rec, W)|;
      var l := |WeeksWith(rec, L)|;
      Totals(w, l, w + l, if w + l == 0 then 0.0 else w as real / (w + l) as real)
  }

  /** Every stored week is a win or a loss, so the games are the stored weeks. */
  lemma TotalGamesIsWeeks(rec: WeekRecord)
    ensures TotalsOf(Some(rec)).totalGames == |rec|
  {
    var ws := WeeksWith(rec, W);
    var ls := WeeksWith(rec, L);
    assert rec.Keys == ws + ls;
    assert ws * ls == {};
  }

  /** Moving one key out of the to-do set adds it to the counted weeks when its result
      is `o`. */
  lemma CountStep(rec: WeekRecord, o: Outcome, todo: set<string>, k: string)
    requires k in todo && todo <= rec.Keys
    ensures |WeeksWith(rec, o) - (todo - {k})| == |WeeksWith(rec, o) - todo| + (if rec[k] == o then 1 else 0)
  {
    var before := WeeksWith(rec, o) - todo;
    if rec[k] == o {
      assert WeeksWith(rec, o) - (todo - {k}) == before + {k};
    } else {
      assert WeeksWith(rec, o) - (todo - {k}) == before;
    }
  }

  /** computeRecordTotals: one pass over the stored results. */
  method ComputeRecordTotals(record: Option<WeekRecord>) returns (t: Totals)
    ensures t == TotalsOf(record)
  {
    if record.None? {
      return Totals(0, 0, 0, 0.0);
    }
    var rec := record.value;
    var wins, losses := 0, 0;
    var todo := rec.Keys;
    while todo != {}
      invariant todo <= rec.Keys
      invariant wins == |WeeksWith(rec, W) - todo|
      invariant losses == |WeeksWith(rec, L) - todo|
      decreases |todo|
    {
      var k :| k in todo;
      CountStep(rec, W, todo, k);
      CountStep(rec, L, todo, k);
      if rec[k] == W {
        wins := wins + 1;
      }
      if rec[k] == L {
        losses := losses + 1;
      }
      todo := todo - {k};
    }
    assert WeeksWith(rec, W) - todo == WeeksWith(rec, W);
    assert WeeksWith(rec, L) - todo == WeeksWith(rec, L);
    var totalGames := wins + losses;
    var winPct := if totalGames == 0 then 0.0 else wins as real / totalGames as real;
    t := Totals(wins, losses, totalGames, winPct);
  }

  // ---------------------------------------------------------------------------------
  // computeStreakLabel

  /** Lexicographic order of strings by character code, standing for `localeCompare`. */
  predicate StrLess(a: string, b: string)
    decreases |a|
  {
    if a == [] then b != []
    else if b == [] then false
    else a[0] < b[0] || (a[0] == b[0] && StrLess(a[1..], b[1..]))
  }

  lemma {:induction false} StrLessIrreflexive(a: string)
    ensures !StrLess(a, a)
    decreases |a|
  {
    if a != [] {
      StrLessIrreflexive(a[1..]);
    }
  }

  lemma {:induction false} StrLessAsymmetric(a: string, b: string)
    ensures !(StrLess(a, b) && StrLess(b, a))
    decreases |a|
  {
    if a != [] && b != [] && a[0] == b[0] {
      StrLessAsymmetric(a[1..], b[1..]);
    }
  }

  lemma {:induction false} StrLessTransitive(a: string, b: string, c: string)
    requires StrLess(a, b) && StrLess(b, c)
    ensures StrLess(a, c)
    decreases |a|
  {
    if a != [] && a[0] == b[0] && b[0] == c[0] {
      StrLessTransitive(a[1..], b[1..], c[1..]);
    }
  }

  lemma {:induction false} StrLessTotal(a: string, b: string)
    requires a != b
    ensures StrLess(a, b) || StrLess(b, a)
    decreases |a|
  {
    if a != [] && b != [] && a[0] == b[0] {
      assert a == [a[0]] + a[1..] && b == [b[0]] + b[1..];
      StrLessTotal(a[1..], b[1..]);
    }
  }

  /** The streak order of week keys: by parsed week number, keys that do not parse after
      every key that does, and ties by key text. */
  predicate KeyBefore(a: string, b: string)
  {
    match (ParseWeek(a), ParseWeek(b))
    case (Some(x), Some(y)) => x < y || (x == y && StrLess(a, b))
    case (Some(_), None) => true
    case (None, Some(_)) => false
    case (None, None) => StrLess(a, b)
  }

  predicate KeyLe(a: string, b: string)
  {
    a == b || KeyBefore(a, b)
  }

  /** The streak order is a strict total order on keys. */
  lemma KeyBeforeFacts(a: string, b: string, c: string)
    ensures !KeyBefore(a, a)
    ensures !(KeyBefore(a, b) && KeyBefore(b, a))
    ensures a != b ==> KeyBefore(a, b) || KeyBefore(b, a)
    ensures KeyBefore(a, b) && KeyBefore(b, c) ==> KeyBefore(a, c)
  {
    StrLessIrreflexive(a);
    StrLessAsymmetric(a, b);
    if a != b {
      StrLessTotal(a, b);
    }
    if StrLess(a, b) && StrLess(b, c) {
      StrLessTransitive(a, b, c);
    }
  }

  /** So sorting keys by it (non-strictly) has one possible outcome. */
  lemma KeyLeOrder()
    ensures Sorting.TotalPreorder(KeyLe) && Sorting.Antisymmetric(KeyLe)
  {
    forall a, b, c ensures (KeyLe(a, b) || KeyLe(b, a)) && (KeyLe(a, b) && KeyLe(b, c) ==> KeyLe(a, c)) &&
                           (KeyLe(a, b) && KeyLe(b, a) ==> a == b) {
      KeyBeforeFacts(a, b, c);
    }
  }

  /** Some enumeration of a set of keys. */
  ghost function SetToSeq(s: set<string>): (r: seq<string>)
    ensures multiset(r) == multiset(s)
    decreases |s|
  {
    if s == {} then []
    else
      var x :| x in s;
      assert multiset(s) == multiset{x} + multiset(s - {x});
      [x] + SetToSeq(s - {x})
  }

  /** The record's weeks in streak order. */
  ghost function Chronological(rec: WeekRecord): (ks: seq<string>)
    ensures |ks| == |rec| && forall i :: 0 <= i < |ks| ==> ks[i] in rec
  {
    KeyLeOrder();
    Sorting.SortBySorted(SetToSeq(rec.Keys), KeyLe);
    var ks := Sorting.SortBy(SetToSeq(rec.Keys), KeyLe);
    InMultiset(ks, rec);
    ks
  }

  /** Streak order lists every week of the record once, in the comparator's order. */
  lemma ChronologicalFacts(rec: WeekRecord)
    ensures var ks := Chronological(rec);
            multiset(ks) == multiset(rec.Keys) && Sorting.SortedBy(ks, KeyLe)
  {
    KeyLeOrder();
    Sorting.SortBySorted(SetToSeq(rec.Keys), KeyLe);
  }

  lemma InMultiset(ks: seq<string>, rec: WeekRecord)
    requires multiset(ks) == multiset(rec.Keys)
    ensures |ks| == |rec| && forall i :: 0 <= i < |ks| ==> ks[i] in rec
  {
    assert |multiset(ks)| == |multiset(rec.Keys)|;
    forall i | 0 <= i < |ks| ensures ks[i] in rec {
      assert ks[i] in multiset(ks);
    }
  }

  /** The results of the given weeks, in that order. */
  function Results(rec: WeekRecord, ks: seq<string>): (rs: seq<Outcome>)
    requires forall i :: 0 <= i < |ks| ==> ks[i] in rec
    ensures |rs| == |ks| && forall i :: 0 <= i < |ks| ==> rs[i] == rec[ks[i]]
  {
    seq(|ks|, i requires 0 <= i < |ks| => rec[ks[i]])
  }

  /** The length of the longest run of `o` at the end of `rs`. */
  function TrailingRun(rs: seq<Outcome>, o: Outcome): (n: nat)
    ensures n <= |rs|
    decreases |rs|
  {
    if rs == [] || rs[|rs| - 1] != o then 0 else TrailingRun(rs[..|rs| - 1], o) + 1
  }

  /** The run is all `o`, and the outcome just before it (if any) is not. */
  lemma {:induction false} TrailingRunFacts(rs: seq<Outcome>, o: Outcome)
    ensures forall i :: |rs| - TrailingRun(rs, o) <= i < |rs| ==> rs[i] == o
    ensures TrailingRun(rs, o) < |rs| ==> rs[|rs| - 1 - TrailingRun(rs, o)] != o
    decreases |rs|
  {
    if rs != [] && rs[|rs| - 1] == o {
      var front := rs[..|rs| - 1];
      TrailingRunFacts(front, o);
      assert forall i :: 0 <= i < |front| ==> front[i] == rs[i];
    }
  }

  datatype Streak = Streak(result: Outcome, count: nat)

  /** The streak of a result sequence: the last result and the length of its run. */
  function StreakOf(rs: seq<Outcome>): (st: Option<Streak>)
    ensures st.None? <==> rs == []
    ensures st.Some? ==> st.value.result == rs[|rs| - 1] && 1 <= st.value.count <= |rs|
  {
    if rs == [] then None else Some(Streak(rs[|rs| - 1], TrailingRun(rs, rs[|rs| - 1])))
  }

  /** The streak's run is all its result, and the result just before it (if any) is not. */
  lemma StreakOfFacts(rs: seq<Outcome>)
    requires rs != []
    ensures var st := StreakOf(rs).value;
            (forall i :: |rs| - st.count <= i < |rs| ==> rs[i] == st.result) &&
            (st.count < |rs| ==> rs[|rs| - 1 - st.count] != st.result)
  {
    TrailingRunFacts(rs, rs[|rs| - 1]);
  }

  /** `${targetResult}${count}` */
  function Label(st: Streak): string
  {
    [if st.result == W then 'W' else 'L'] + NatToString(st.count)
  }

  /** The streak of a record: over its weeks in streak order. */
  ghost function RecordStreak(rec: WeekRecord): Option<Streak>
  {
    StreakOf(Results(rec, Chronological(rec)))
  }

  /** What computeStreakLabel computes. */
  ghost function StreakLabelOf(record: Option<WeekRecord>): Option<string>
  {
    match record
    case None => None
    case Some(rec) =>
      match RecordStreak(rec)
      case None => None
      case Some(st) => Some(Label(st))
  }

  /** The label gives back the streak: its letter is the result and the rest is the
      decimal count. */
  lemma LabelRoundTrip(st: Streak)
    ensures Label(st)[0] == (if st.result == W then 'W' else 'L')
    ensures var ds := Label(st)[1..]; AllDigits(ds) && DigitsValue(ds) == st.count
  {
    assert Label(st)[1..] == NatToString(st.count);
    NumberRoundTrip(st.count);
  }

  /** `Object.entries(record)`, keys only, in some order: each key exactly once. */
  method EntryKeys(rec: WeekRecord) returns (entries: seq<string>)
    ensures multiset(entries) == multiset(rec.Keys)
  {
    entries := [];
    var todo := rec.Keys;
    while todo != {}
      invariant todo <= rec.Keys
      invariant multiset(entries) + multiset(todo) == multiset(rec.Keys)
      decreases |todo|
    {
      var k :| k in todo;
      entries := entries + [k];
      todo := todo - {k};
    }
  }

  /** The backward loop of computeStreakLabel: count results equal to `target` from the
      end until the first different one. */
  method CountTrailing(rs: seq<Outcome>, target: Outcome) returns (count: nat)
    ensures count == TrailingRun(rs, target)
  {
    count := 0;
    var i := |rs| - 1;
    assert rs[..i + 1] == rs;
    while i >= 0
      invariant -1 <= i < |rs|
      invariant count == |rs| - 1 - i
      invariant TrailingRun(rs, target) == count + TrailingRun(rs[..i + 1], target)
    {
      if rs[i] == target {
        assert rs[..i + 1][..i] == rs[..i];
        count := count + 1;
      } else {
        break;
      }
      i := i - 1;
    }
  }

  /** The sorted entries of a record are its weeks in streak order. */
  lemma SortedEntries(rec: WeekRecord, entries: seq<string>)
    requires multiset(entries) == multiset(rec.Keys)
    ensures Sorting.SortBy(entries, KeyLe) == Chronological(rec)
  {
    KeyLeOrder();
    ChronologicalFacts(rec);
    Sorting.SortBySorted(entries, KeyLe);
    Sorting.SortedUnique(Sorting.SortBy(entries, KeyLe), Chronological(rec), KeyLe);
  }

  /** computeStreakLabel: sort the entries into streak order, then count back from the
      last entry while the result repeats. */
  method ComputeStreakLabel(record: Option<WeekRecord>) returns (text: Option<string>)
    ensures text == StreakLabelOf(record)
  {
    if record.None? {
      return None;
    }
    var rec := record.value;
    var entries := EntryKeys(rec);
    SortedEntries(rec, entries);
    var sorted := Sorting.SortBy(entries, KeyLe);
    if |sorted| == 0 {
      return None;
    }
    var rs := Results(rec, sorted);
    var target := rs[|rs| - 1];
    var count := CountTrailing(rs, target);
    text := Some(Label(Streak(target, count)));
  }

  /** The label is absent exactly when the record is absent or has no entries. */
  lemma StreakLabelNoneIff(record: Option<WeekRecord>)
    ensures StreakLabelOf(record).None? <==> record.None? || |record.value| == 0
  {
    if record.Some? {
      var ks := Chronological(record.value);
      assert |Results(record.value, ks)| == |record.value|;
    }
  }

  /** The last week in streak order comes after every other week of the record. */
  lemma LatestWeekLast(rec: WeekRecord)
    requires |rec| > 0
    ensures var ks := Chronological(rec); forall k :: k in rec ==> KeyLe(k, ks[|ks| - 1])
  {
    var ks := Chronological(rec);
    ChronologicalFacts(rec);
    forall k | k in rec ensures KeyLe(k, ks[|ks| - 1]) {
      assert k in multiset(ks);
      var i :| 0 <= i < |ks| && ks[i] == k;
      if i < |ks| - 1 {
        assert KeyLe(ks[i], ks[|ks| - 1]);
      }
    }
  }

  /** The streak of a non-empty record: its result is that of the latest week in streak
      order, its count between 1 and the number of weeks; the last `count` weeks all have
      that result and the week before them (if any) does not. */
  lemma RecordStreakFacts(rec: WeekRecord)
    requires |rec| > 0
    ensures var ks := Chronological(rec);
            var st := RecordStreak(rec);
            |ks| == |rec| && st.Some? &&
            st.value.result == rec[ks[|ks| - 1]] &&
            (forall k :: k in rec ==> KeyLe(k, ks[|ks| - 1])) &&
            1 <= st.value.count <= |rec| &&
            (forall i :: |ks| - st.value.count <= i < |ks| ==> rec[ks[i]] == st.value.result) &&
            (st.value.count < |ks| ==> rec[ks[|ks| - 1 - st.value.count]] != st.value.result)
  {
    var ks := Chronological(rec);
    var rs := Results(rec, ks);
    var st := StreakOf(rs).value;
    assert RecordStreak(rec) == Some(st);
    StreakOfFacts(rs);
    LatestWeekLast(rec);
    forall i | |ks| - st.count <= i < |ks| ensures rec[ks[i]] == st.result {
      assert rs[i] == st.result;
    }
    if st.count < |ks| {
      assert rs[|ks| - 1 - st.count] != st.result;
    }
  }

  /** Weeks 1..3 with W, L, L. */
  function ExampleRecord(): WeekRecord
  {
    map[WeekKey(1) := W, WeekKey(2) := L, WeekKey(3) := L]
  }

  lemma ExampleChronological()
    ensures Chronological(ExampleRecord()) == [WeekKey(1), WeekKey(2), WeekKey(3)]
  {
    var rec := ExampleRecord();
    var ks := [WeekKey(1), WeekKey(2), WeekKey(3)];
    ParseWeekKey(1);
    ParseWeekKey(2);
    ParseWeekKey(3);
    assert KeyBefore(ks[0], ks[1]) && KeyBefore(ks[1], ks[2]) && KeyBefore(ks[0], ks[2]);
    assert Sorting.SortedBy(ks, KeyLe);
    assert WeekKey(1) != WeekKey(2) && WeekKey(2) != WeekKey(3) && WeekKey(1) != WeekKey(3);
    assert multiset(ks) == multiset(rec.Keys) by {
      assert rec.Keys == {WeekKey(1), WeekKey(2), WeekKey(3)};
    }
    KeyLeOrder();
    ChronologicalFacts(rec);
    Sorting.SortedUnique(ks, Chronological(rec), KeyLe);
  }

  lemma TrailingRunExample()
    ensures TrailingRun([W, L, L], L) == 2
  {
    var rs := [W, L, L];
    assert rs[..2] == [W, L] && rs[..2][..1] == [W];
    assert TrailingRun([W], L) == 0;
    assert TrailingRun([W, L], L) == 1;
  }

  lemma ExampleResults()
    ensures Results(ExampleRecord(), [WeekKey(1), WeekKey(2), WeekKey(3)]) == [W, L, L]
  {
    var rec := ExampleRecord();
    ParseWeekKey(1);
    ParseWeekKey(2);
    ParseWeekKey(3);
    var ks := [WeekKey(1), WeekKey(2), WeekKey(3)];
    assert rec[ks[0]] == W && rec[ks[1]] == L && rec[ks[2]] == L;
    var rs := Results(rec, ks);
    assert |rs| == 3 && rs[0] == W && rs[1] == L && rs[2] == L;
  }

  lemma RecordStreakExample()
    ensures RecordStreak(ExampleRecord()) == Some(Streak(L, 2))
  {
    ExampleChronological();
    ExampleResults();
    TrailingRunExample();
    assert StreakOf([W, L, L]) == Some(Streak(L, 2));
  }

  lemma LabelOfStreak(rec: WeekRecord, st: Streak)
    requires RecordStreak(rec) == Some(st)
    ensures StreakLabelOf(Some(rec)) == Some(Label(st))
  {
  }

  /** A run of two losses is labelled "L2". */
  lemma LabelExample()
    ensures Label(Streak(L, 2)) == "L2"
  {
    assert NatToString(2) == "2";
  }

  /** Weeks 1..3 with W, L, L give "L2". */
  lemma StreakExample()
    ensures StreakLabelOf(Some(ExampleRecord())) == Some("L2")
  {
    RecordStreakExample();
    LabelOfStreak(ExampleRecord(), Streak(L, 2));
    LabelExample();
  }

  // ---------------------------------------------------------------------------------
  // The standings: sort and competition ranking

  /** A team with its totals and streak label, as the standings list decorates it. */
  datatype Entry = Entry(team: Team, totals: Totals, streakLabel: Option<string>)

  /** A ranked row of the standings table. */
  datatype Ranked = Ranked(entry: Entry, rank: nat)

  /** The comparator's strict part: a higher win percentage, then more wins, then fewer
      losses. */
  predicate Better(a: Totals, b: Totals)
  {
    a.winPct > b.winPct ||
    (a.winPct == b.winPct && (a.wins > b.wins || (a.wins == b.wins && a.losses < b.losses)))
  }

  /** `a` may come before `b` in the standings. */
  predicate StandingLe(a: Entry, b: Entry)
  {
    !Better(b.totals, a.totals)
  }

  lemma StandingLeOrder()
    ensures Sorting.TotalPreorder(StandingLe)
  {
  }

  /** The key the ranking loop compares: `${wins}-${losses}-${totalGames}`. */
  function RankKey(t: Totals): string
  {
    NatToString(t.wins) + "-" + NatToString(t.losses) + "-" + NatToString(t.totalGames)
  }

  /** Digits contain no dash, so the text before the first dash is the first number. */
  lemma {:induction false} SplitAtDash(a: string, b: string, c: string, d: string)
    requires AllDigits(a) && AllDigits(c)
    requires a + "-" + b == c + "-" + d
    ensures a == c && b == d
    decreases |a|
  {
    FirstChar(a, b);
    FirstChar(c, d);
    if a == [] && c == [] {
      assert b == (a + "-" + b)[1..];
      assert d == (c + "-" + d)[1..];
    } else if a != [] && c != [] {
      assert (a + "-" + b)[1..] == a[1..] + "-" + b;
      assert (c + "-" + d)[1..] == c[1..] + "-" + d;
      SplitAtDash(a[1..], b, c[1..], d);
      assert a == [a[0]] + a[1..] && c == [c[0]] + c[1..];
    }
  }

  lemma FirstChar(a: string, b: string)
    ensures (a + "-" + b)[0] == if a == [] then '-' else a[0]
  {
  }

  /** Two totals have the same ranking key exactly when their wins, losses and games
      agree. */
  lemma RankKeyInjective(s: Totals, t: Totals)
    ensures RankKey(s) == RankKey(t) <==>
            s.wins == t.wins && s.losses == t.losses && s.totalGames == t.totalGames
  {
    if RankKey(s) == RankKey(t) {
      var ws, ls, gs := NatToString(s.wins), NatToString(s.losses), NatToString(s.totalGames);
      var wt, lt, gt := NatToString(t.wins), NatToString(t.losses), NatToString(t.totalGames);
      assert RankKey(s) == ws + "-" + (ls + "-" + gs);
      assert RankKey(t) == wt + "-" + (lt + "-" + gt);
      NumberRoundTrip(s.wins);
      NumberRoundTrip(t.wins);
      NumberRoundTrip(s.losses);
      NumberRoundTrip(t.losses);
      NumberRoundTrip(s.totalGames);
      NumberRoundTrip(t.totalGames);
      SplitAtDash(ws, ls + "-" + gs, wt, lt + "-" + gt);
      SplitAtDash(ls, gs, lt, gt);
    }
  }

  /** The ranking keys down the table. */
  function Keys(rows: seq<Entry>): (ks: seq<string>)
    ensures |ks| == |rows| && forall i :: 0 <= i < |rows| ==> ks[i] == RankKey(rows[i].totals)
  {
    seq(|rows|, i requires 0 <= i < |rows| => RankKey(rows[i].totals))
  }

  /** The first index of the run of equal keys that ends at i. */
  function RunStartOf(ks: seq<string>, i: nat): (j: nat)
    requires i < |ks|
    ensures j <= i
    decreases i
  {
    if i == 0 || ks[i - 1] != ks[i] then i else RunStartOf(ks, i - 1)
  }

  /** The first row of the run of equal ranking keys that ends at row i. */
  function RunStart(rows: seq<Entry>, i: nat): (j: nat)
    requires i < |rows|
    ensures j <= i
    decreases i
  {
    if i == 0 || RankKey(rows[i - 1].totals) != RankKey(rows[i].totals) then i else RunStart(rows, i - 1)
  }

  /** Runs of rows are runs of their keys. */
  lemma {:induction false} RunStartKeys(rows: seq<Entry>, i: nat)
    requires i < |rows|
    ensures RunStart(rows, i) == RunStartOf(Keys(rows), i)
    decreases i
  {
    var ks := Keys(rows);
    if i > 0 {
      assert ks[i - 1] == RankKey(rows[i - 1].totals) && ks[i] == RankKey(rows[i].totals);
      if ks[i - 1] == ks[i] {
        RunStartKeys(rows, i - 1);
      }
    }
  }

  /** The run really is a run: every key from its start to i equals key i, and the key
      before the start differs. */
  lemma {:induction false} RunStartRun(ks: seq<string>, i: nat)
    requires i < |ks|
    ensures forall k :: RunStartOf(ks, i) <= k <= i ==> ks[k] == ks[i]
    ensures RunStartOf(ks, i) > 0 ==> ks[RunStartOf(ks, i) - 1] != ks[RunStartOf(ks, i)]
    decreases i
  {
    if i > 0 && ks[i - 1] == ks[i] {
      RunStartRun(ks, i - 1);
    }
  }

  /** A row starts a new run exactly when its key differs from the row above it. */
  lemma RunStartStep(rows: seq<Entry>, i: nat)
    requires i < |rows|
    ensures i == 0 ==> RunStart(rows, i) == 0
    ensures i > 0 && RankKey(rows[i - 1].totals) != RankKey(rows[i].totals) ==> RunStart(rows, i) == i
    ensures i > 0 && RankKey(rows[i - 1].totals) == RankKey(rows[i].totals) ==> RunStart(rows, i) == RunStart(rows, i - 1)
  {
  }

  /** The first n rows, each paired with its rank. */
  ghost function RankedPrefix(rows: seq<Entry>, ranks: seq<nat>, n: nat): seq<Ranked>
    requires n <= |rows| && n <= |ranks|
    decreases n
  {
    if n == 0 then [] else RankedPrefix(rows, ranks, n - 1) + [Ranked(rows[n - 1], ranks[n - 1])]
  }

  lemma {:induction false} RankedPrefixAt(rows: seq<Entry>, ranks: seq<nat>, n: nat)
    requires n <= |rows| && n <= |ranks|
    ensures |RankedPrefix(rows, ranks, n)| == n
    ensures forall k :: 0 <= k < n ==> RankedPrefix(rows, ranks, n)[k] == Ranked(rows[k], ranks[k])
    decreases n
  {
    if n > 0 {
      RankedPrefixAt(rows, ranks, n - 1);
    }
  }

  /** One step of the ranking loop: a new run starts at rank i + 1, otherwise the rank
      of the row above carries over. */
  lemma RankStep(rows: seq<Entry>, i: nat, previous: nat, newRun: bool)
    requires i < |rows|
    requires newRun <==> i == 0 || RankKey(rows[i - 1].totals) != RankKey(rows[i].totals)
    requires i > 0 ==> previous == RunStart(rows, i - 1) + 1
    ensures (if newRun then i + 1 else previous) == RunStart(rows, i) + 1
  {
    RunStartStep(rows, i);
  }

  /** The ranking loop: a new key starts a new rank, equal to the number of teams before
      it plus one; an equal key keeps the current rank. */
  method AssignRanks(sorted: seq<Entry>) returns (ranked: seq<Ranked>)
    ensures |ranked| == |sorted|
    ensures forall i :: 0 <= i < |sorted| ==> ranked[i] == Ranked(sorted[i], RunStart(sorted, i) + 1)
  {
    ghost var ranks := seq(|sorted|, k requires 0 <= k < |sorted| => RunStart(sorted, k) + 1);
    ranked := [];
    var teamsProcessed := 0;
    var currentRank := 1;
    var lastKey: Option<string> := None;
    for i := 0 to |sorted|
      invariant teamsProcessed == i && ranked == RankedPrefix(sorted, ranks, i)
      invariant i == 0 ==> lastKey.None?
      invariant i > 0 ==> lastKey == Some(RankKey(sorted[i - 1].totals)) && currentRank == RunStart(sorted, i - 1) + 1
    {
      var key := RankKey(sorted[i].totals);
      var newRun := lastKey.None? || lastKey.value != key;
      RankStep(sorted, i, currentRank, newRun);
      if newRun {
        currentRank := teamsProcessed + 1;
      }
      assert ranks[i] == RunStart(sorted, i) + 1;
      ranked := ranked + [Ranked(sorted[i], currentRank)];
      teamsProcessed := teamsProcessed + 1;
      lastKey := Some(key);
    }
    RankedPrefixAt(sorted, ranks, |sorted|);
    forall i | 0 <= i < |sorted| ensures ranked[i] == Ranked(sorted[i], RunStart(sorted, i) + 1) {
      assert ranks[i] == RunStart(sorted, i) + 1;
    }
  }

  /** Ranks never decrease down the table. */
  lemma {:induction false} RunStartMonotone(ks: seq<string>, i: nat, k: nat)
    requires i <= k < |ks|
    ensures RunStartOf(ks, i) <= RunStartOf(ks, k)
    decreases k
  {
    if i < k && RunStartOf(ks, k) != k {
      RunStartMonotone(ks, i, k - 1);
    }
  }

  /** Over a stretch of equal keys the rank stays the same. */
  lemma {:induction false} RunStartConstant(ks: seq<string>, i: nat, k: nat)
    requires i <= k < |ks|
    requires forall m :: i <= m <= k ==> ks[m] == ks[i]
    ensures RunStartOf(ks, k) == RunStartOf(ks, i)
    decreases k
  {
    if i < k {
      RunStartConstant(ks, i, k - 1);
    }
  }

  /** Totals as computeRecordTotals produces them. */
  ghost predicate WellFormed(t: Totals)
  {
    t.totalGames == t.wins + t.losses &&
    t.winPct == if t.totalGames == 0 then 0.0 else t.wins as real / t.totalGames as real
  }

  lemma TotalsOfWellFormed(record: Option<WeekRecord>)
    ensures WellFormed(TotalsOf(record))
  {
  }

  /** In a table sorted by the comparator, teams with the same wins, losses and games
      share a rank, however far apart they are. */
  lemma TiedTeamsShareRank(rows: seq<Entry>, i: nat, k: nat)
    requires Sorting.SortedBy(rows, StandingLe)
    requires forall m :: 0 <= m < |rows| ==> WellFormed(rows[m].totals)
    requires i <= k < |rows| && RankKey(rows[i].totals) == RankKey(rows[k].totals)
    ensures RunStart(rows, i) == RunStart(rows, k)
  {
    var ks := Keys(rows);
    RankKeyInjective(rows[i].totals, rows[k].totals);
    forall m | i <= m <= k ensures ks[m] == ks[i] {
      if i < m < k {
        assert StandingLe(rows[i], rows[m]) && StandingLe(rows[m], rows[k]);
        RankKeyInjective(rows[m].totals, rows[i].totals);
      }
    }
    RunStartConstant(ks, i, k);
    RunStartKeys(rows, i);
    RunStartKeys(rows, k);
  }

  /** A team whose key differs from the one above it is ranked by its position. */
  lemma NewKeyRank(rows: seq<Entry>, i: nat)
    requires 0 < i < |rows| && RankKey(rows[i - 1].totals) != RankKey(rows[i].totals)
    ensures RunStart(rows, i) + 1 == i + 1
  {
  }

  /** The entry computeRecordTotals and computeStreakLabel give a team. */
  ghost function EntryOf(team: Team): Entry
  {
    Entry(team, TotalsOf(team.record), StreakLabelOf(team.record))
  }

  ghost function EntriesOf(teams: seq<Team>): (es: seq<Entry>)
    ensures |es| == |teams| && forall i :: 0 <= i < |teams| ==> es[i] == EntryOf(teams[i])
  {
    seq(|teams|, i requires 0 <= i < |teams| => EntryOf(teams[i]))
  }

  /** The standings memo: decorate each team, sort, then rank. */
  method ComputeStandings(teams: seq<Team>) returns (ranked: seq<Ranked>)
    ensures var sorted := Sorting.SortBy(EntriesOf(teams), StandingLe);
            |ranked| == |sorted| &&
            forall i :: 0 <= i < |sorted| ==> ranked[i] == Ranked(sorted[i], RunStart(sorted, i) + 1)
  {
    var entries: seq<Entry> := [];
    for i := 0 to |teams|
      invariant |entries| == i && forall k :: 0 <= k < i ==> entries[k] == EntryOf(teams[k])
    {
      var totals := ComputeRecordTotals(teams[i].record);
      var streakLabel := ComputeStreakLabel(teams[i].record);
      entries := entries + [Entry(teams[i], totals, streakLabel)];
    }
    assert entries == EntriesOf(teams);
    var sorted := Sorting.SortBy(entries, StandingLe);
    ranked := AssignRanks(sorted);
  }

  /** The sorted standings are a permutation of the decorated teams, best record first. */
  lemma StandingsSorted(teams: seq<Team>)
    ensures var sorted := Sorting.SortBy(EntriesOf(teams), StandingLe);
            multiset(sorted) == multiset(EntriesOf(teams)) &&
            (forall i, j :: 0 <= i < j < |sorted| ==> !Better(sorted[j].totals, sorted[i].totals)) &&
            forall m :: 0 <= m < |sorted| ==> WellFormed(sorted[m].totals)
  {
    var es := EntriesOf(teams);
    var sorted := Sorting.SortBy(es, StandingLe);
    StandingLeOrder();
    Sorting.SortBySorted(es, StandingLe);
    assert forall e :: e in es ==> WellFormed(e.totals) by {
      forall e | e in es ensures WellFormed(e.totals) {
        var t :| 0 <= t < |es| && es[t] == e;
        TotalsOfWellFormed(teams[t].record);
      }
    }
    forall m | 0 <= m < |sorted| ensures WellFormed(sorted[m].totals) {
      assert sorted[m] in multiset(es);
    }
  }

  /** Competition ranking over the sorted standings: the first rank is 1, ranks never
      decrease and never exceed position + 1, and teams with equal records share a rank. */
  lemma StandingsRanks(teams: seq<Team>)
    ensures var sorted := Sorting.SortBy(EntriesOf(teams), StandingLe);
            (|sorted| > 0 ==> RunStart(sorted, 0) == 0) &&
            (forall i, j :: 0 <= i <= j < |sorted| ==> RunStart(sorted, i) <= RunStart(sorted, j)) &&
            (forall i :: 0 <= i < |sorted| ==> RunStart(sorted, i) <= i) &&
            (forall i, j :: 0 <= i <= j < |sorted| && RankKey(sorted[i].totals) == RankKey(sorted[j].totals) ==>
                RunStart(sorted, i) == RunStart(sorted, j))
  {
    var sorted := Sorting.SortBy(EntriesOf(teams), StandingLe);
    StandingsSorted(teams);
    forall i, j | 0 <= i <= j < |sorted| ensures RunStart(sorted, i) <= RunStart(sorted, j) {
      RunStartMonotone(Keys(sorted), i, j);
      RunStartKeys(sorted, i);
      RunStartKeys(sorted, j);
    }
    forall i, j | 0 <= i <= j < |sorted| && RankKey(sorted[i].totals) == RankKey(sorted[j].totals)
      ensures RunStart(sorted, i) == RunStart(sorted, j)
    {
      TiedTeamsShareRank(sorted, i, j);
    }
  }

  /** Records 3-0, 3-0, 2-1 rank 1, 1, 3. */
  lemma RankExample(a: Team, b: Team, c: Team)
    ensures var rows := [Entry(a, Totals(3, 0, 3, 1.0), None), Entry(b, Totals(3, 0, 3, 1.0), None),
                         Entry(c, Totals(2, 1, 3, 2.0 / 3.0), None)];
            RunStart(rows, 0) + 1 == 1 && RunStart(rows, 1) + 1 == 1 && RunStart(rows, 2) + 1 == 3
  {
    RankKeyInjective(Totals(3, 0, 3, 1.0), Totals(2, 1, 3, 2.0 / 3.0));
  }

  // ---------------------------------------------------------------------------------
  // getThemeForRank, formatOrdinal

  /** getThemeForRank, as the index of the theme: ranks up to 3, up to 6, and the rest. */
  function ThemeForRank(rank: int): (theme: nat)
    ensures theme < 3
  {
    if rank <= 3 then 0 else if rank <= 6 then 1 else 2
  }

  /** A better (smaller) rank never gets a later theme, and each band is exactly its
      range of ranks. */
  lemma ThemeBands(r: int, s: int)
    ensures r <= s ==> ThemeForRank(r) <= ThemeForRank(s)
    ensures ThemeForRank(r) == 0 <==> r <= 3
    ensures ThemeForRank(r) == 1 <==> 4 <= r <= 6
    ensures ThemeForRank(r) == 2 <==> r >= 7
  {
  }

  /** The English ordinal suffix of a rank. */
  function OrdinalSuffix(rank: nat): string
  {
    if 11 <= rank % 100 <= 13 then "th"
    else if rank % 10 == 1 then "st"
    else if rank % 10 == 2 then "nd"
    else if rank % 10 == 3 then "rd"
    else "th"
  }

  /** formatOrdinal: the rank in decimal followed by its suffix. */
  function FormatOrdinal(rank: nat): string
  {
    NatToString(rank) + OrdinalSuffix(rank)
  }

  /** The text ends in the rank's two-letter suffix, and what precedes it is the rank in
      canonical decimal digits. */
  lemma FormatOrdinalParts(rank: nat)
    ensures var s := FormatOrdinal(rank);
            |s| >= 3 && s[|s| - 2..] == OrdinalSuffix(rank) &&
            IsCanonicalDigits(s[..|s| - 2]) && DigitsValue(s[..|s| - 2]) == rank
  {
    var s := FormatOrdinal(rank);
    assert s[..|s| - 2] == NatToString(rank);
    NumberRoundTrip(rank);
  }

  /** The suffix depends only on the last two digits; the teens take "th", other last
      digits 1, 2 and 3 take "st", "nd" and "rd", and the rest "th". */
  lemma SuffixRules(rank: nat)
    ensures OrdinalSuffix(rank + 100) == OrdinalSuffix(rank)
    ensures 11 <= rank % 100 <= 13 ==> OrdinalSuffix(rank) == "th"
    ensures !(11 <= rank % 100 <= 13) && rank % 10 == 1 ==> OrdinalSuffix(rank) == "st"
    ensures !(11 <= rank % 100 <= 13) && rank % 10 == 2 ==> OrdinalSuffix(rank) == "nd"
    ensures !(11 <= rank % 100 <= 13) && rank % 10 == 3 ==> OrdinalSuffix(rank) == "rd"
    ensures rank % 10 == 0 || 4 <= rank % 10 ==> OrdinalSuffix(rank) == "th"
  {
    assert (rank + 100) % 100 == rank % 100;
    assert (rank + 100) % 10 == rank % 10;
  }

  lemma OrdinalExamplesSmall()
    ensures FormatOrdinal(1) == "1st" && FormatOrdinal(2) == "2nd" && FormatOrdinal(3) == "3rd"
    ensures FormatOrdinal(4) == "4th"
  {
    assert FormatOrdinal(1) == "1st" by { assert NatToString(1) == "1" && OrdinalSuffix(1) == "st"; }
    assert FormatOrdinal(2) == "2nd" by { assert NatToString(2) == "2" && OrdinalSuffix(2) == "nd"; }
    assert FormatOrdinal(3) == "3rd" by { assert NatToString(3) == "3" && OrdinalSuffix(3) == "rd"; }
    assert FormatOrdinal(4) == "4th" by { assert NatToString(4) == "4" && OrdinalSuffix(4) == "th"; }
  }

  lemma OrdinalExamplesTeens()
    ensures FormatOrdinal(11) == "11th" && FormatOrdinal(12) == "12th" && FormatOrdinal(13) == "13th"
  {
    assert FormatOrdinal(11) == "11th" by { assert NatToString(11) == "11" && OrdinalSuffix(11) == "th"; }
    assert FormatOrdinal(12) == "12th" by { assert NatToString(12) == "12" && OrdinalSuffix(12) == "th"; }
    assert FormatOrdinal(13) == "13th" by { assert NatToString(13) == "13" && OrdinalSuffix(13) == "th"; }
  }

  lemma OrdinalExamplesTwenties()
    ensures FormatOrdinal(21) == "21st" && FormatOrdinal(22) == "22nd"
  {
    assert FormatOrdinal(21) == "21st" by { assert NatToString(21) == "21" && OrdinalSuffix(21) == "st"; }
    assert FormatOrdinal(22) == "22nd" by { assert NatToString(22) == "22" && OrdinalSuffix(22) == "nd"; }
  }

  lemma OrdinalExampleHundreds()
    ensures FormatOrdinal(111) == "111th" && FormatOrdinal(101) == "101st"
  {
    assert FormatOrdinal(111) == "111th" by {
      assert NatToString(11) == "11" && NatToString(111) == "111" && OrdinalSuffix(111) == "th";
    }
    assert FormatOrdinal(101) == "101st" by {
      assert NatToString(10) == "10" && NatToString(101) == "101" && OrdinalSuffix(101) == "st";
    }
  }

  // ---------------------------------------------------------------------------------
  // getTeamInitials

  /** Whitespace as `trim` and `\s` see it, restricted to ASCII. */
  predicate IsSpace(c: char)
  {
    c == ' ' || c == '\t' || c == '\n' || c == '\r' || c == '\U{000B}' || c == '\U{000C}'
  }

  predicate NoSpace(s: string)
  {
    forall i :: 0 <= i < |s| ==> !IsSpace(s[i])
  }

  /** The string without its leading whitespace. */
  function TrimStart(s: string): (r: string)
    ensures |r| <= |s| && r == s[|s| - |r|..]
    ensures r == [] || !IsSpace(r[0])
    decreases |s|
  {
    if s != [] && IsSpace(s[0]) then
      var r := TrimStart(s[1..]);
      assert s[1..][|s| - 1 - |r|..] == s[|s| - |r|..];
      assert forall i :: 1 <= i < |s| ==> s[i] == s[1..][i - 1];
      r
    else s
  }

  /** The string without its trailing whitespace. */
  function TrimEnd(s: string): (r: string)
    ensures |r| <= |s| && r == s[..|r|]
    ensures r == [] || !IsSpace(r[|r| - 1])
    decreases |s|
  {
    if s != [] && IsSpace(s[|s| - 1]) then
      var r := TrimEnd(s[..|s| - 1]);
      assert s[..|s| - 1][..|r|] == s[..|r|];
      r
    else s
  }

  /** `trim()`: both ends stripped of whitespace. */
  function Trim(s: string): (r: string)
    ensures r == [] || (!IsSpace(r[0]) && !IsSpace(r[|r| - 1]))
  {
    var t := TrimStart(s);
    var r := TrimEnd(t);
    assert r != [] ==> r[0] == t[0];
    r
  }

  /** Everything TrimStart drops is whitespace. */
  lemma {:induction false} TrimStartDrops(s: string)
    ensures forall k :: 0 <= k < |s| - |TrimStart(s)| ==> IsSpace(s[k])
    decreases |s|
  {
    if s != [] && IsSpace(s[0]) {
      TrimStartDrops(s[1..]);
      assert forall k :: 1 <= k < |s| ==> s[k] == s[1..][k - 1];
    }
  }

  /** Everything TrimEnd drops is whitespace. */
  lemma {:induction false} TrimEndDrops(s: string)
    ensures forall k :: |TrimEnd(s)| <= k < |s| ==> IsSpace(s[k])
    decreases |s|
  {
    if s != [] && IsSpace(s[|s| - 1]) {
      TrimEndDrops(s[..|s| - 1]);
    }
  }

  /** Dropping whitespace from the front of `s` to get `t`, then from the back of `t` to
      get `r`, leaves `r` as a slice of `s` with whitespace on both sides. */
  lemma StripBothEnds(s: string, t: string, r: string)
    requires |t| <= |s| && t == s[|s| - |t|..] && forall k :: 0 <= k < |s| - |t| ==> IsSpace(s[k])
    requires |r| <= |t| && r == t[..|r|] && forall k :: |r| <= k < |t| ==> IsSpace(t[k])
    ensures var i := |s| - |t|; i + |r| <= |s| && r == s[i..i + |r|]
    ensures var i := |s| - |t|; forall k :: 0 <= k < i || i + |r| <= k < |s| ==> IsSpace(s[k])
  {
    var i := |s| - |t|;
    forall k | i + |r| <= k < |s| ensures IsSpace(s[k]) {
      assert s[k] == t[k - i];
    }
  }

  /** `r` is the slice of `s` starting at `i`, and everything around it is whitespace. */
  ghost predicate StrippedFrom(s: string, i: nat, r: string)
  {
    i + |r| <= |s| && r == s[i..i + |r|] &&
    forall k :: 0 <= k < i || i + |r| <= k < |s| ==> IsSpace(s[k])
  }

  /** `trim()` keeps the middle of the string and drops exactly the whitespace before
      and after it: the result is a slice whose surroundings are all whitespace and whose
      ends are not. */
  lemma TrimStrips(s: string)
    ensures StrippedFrom(s, |s| - |TrimStart(s)|, Trim(s))
    ensures var r := Trim(s); r == [] || (!IsSpace(r[0]) && !IsSpace(r[|r| - 1]))
  {
    var t := TrimStart(s);
    var r := TrimEnd(t);
    assert Trim(s) == r;
    assert StrippedFrom(s, |s| - |t|, r) by {
      TrimStartDrops(s);
      TrimEndDrops(t);
      StripBothEnds(s, t, r);
    }
  }

  /** The index of the first whitespace character. */
  function FirstSpace(t: string): (r: Option<nat>)
    ensures r.Some? ==> r.value < |t| && IsSpace(t[r.value]) && NoSpace(t[..r.value])
    ensures r.None? ==> NoSpace(t)
    decreases |t|
  {
    if t == [] then None
    else if IsSpace(t[0]) then Some(0)
    else match FirstSpace(t[1..])
      case Some(i) =>
        assert forall k :: 0 < k <= i ==> !IsSpace(t[k]) by {
          forall k | 0 < k <= i ensures !IsSpace(t[k]) {
            assert t[1..][..i][k - 1] == t[k];
          }
        }
        Some(i + 1)
      case None => None
  }

  /** The end of the whitespace run starting at i. */
  function SkipSpaces(t: string, i: nat): (j: nat)
    requires i <= |t|
    ensures i <= j <= |t| && (j == |t| || !IsSpace(t[j]))
    ensures forall k :: i <= k < j ==> IsSpace(t[k])
    decreases |t| - i
  {
    if i < |t| && IsSpace(t[i]) then SkipSpaces(t, i + 1) else i
  }

  /** `split(/\s+/)`: the pieces between runs of whitespace. */
  function SplitWs(t: string): (words: seq<string>)
    ensures |words| >= 1
    ensures forall k :: 0 <= k < |words| ==> NoSpace(words[k])
    ensures |words| == 1 <==> NoSpace(t)
    ensures t != [] && !IsSpace(t[0]) ==> words[0] != [] && words[0][0] == t[0]
    ensures t != [] && !IsSpace(t[|t| - 1]) ==> forall k :: 0 < k < |words| ==> words[k] != []
    decreases |t|
  {
    match FirstSpace(t)
    case None => [t]
    case Some(i) =>
      var j := SkipSpaces(t, i + 1);
      var rest := t[j..];
      assert j < |t| ==> rest[|rest| - 1] == t[|t| - 1] && rest[0] == t[j];
      [t[..i]] + SplitWs(rest)
  }

  /** The text with every run of whitespace replaced by a single space: a whitespace
      character followed by another is dropped, the last of a run becomes " ". */
  function Squeeze(s: string): string
  {
    if s == [] then []
    else if IsSpace(s[0]) then
      if |s| > 1 && IsSpace(s[1]) then Squeeze(s[1..]) else " " + Squeeze(s[1..])
    else [s[0]] + Squeeze(s[1..])
  }

  /** The words joined with `sep` between neighbours. */
  function JoinWith(words: seq<string>, sep: string): string
  {
    if |words| == 0 then []
    else if |words| == 1 then words[0]
    else words[0] + sep + JoinWith(words[1..], sep)
  }

  /** A leading piece without whitespace passes through Squeeze unchanged. */
  lemma {:induction false} SqueezeWord(a: string, b: string)
    requires NoSpace(a)
    ensures Squeeze(a + b) == a + Squeeze(b)
    decreases |a|
  {
    if a != [] {
      assert (a + b)[0] == a[0] && (a + b)[1..] == a[1..] + b;
      assert NoSpace(a[1..]) by {
        assert forall k :: 0 <= k < |a| - 1 ==> a[1..][k] == a[k + 1];
      }
      SqueezeWord(a[1..], b);
      assert !IsSpace(a[0]);
      assert Squeeze(a + b) == [a[0]] + Squeeze(a[1..] + b);
      assert [a[0]] + (a[1..] + Squeeze(b)) == ([a[0]] + a[1..]) + Squeeze(b);
      assert [a[0]] + a[1..] == a;
    } else {
      assert a + b == b && a + Squeeze(b) == Squeeze(b);
    }
  }

  lemma JoinCons(w: string, ws: seq<string>, sep: string)
    requires |ws| >= 1
    ensures JoinWith([w] + ws, sep) == w + sep + JoinWith(ws, sep)
  {
    assert ([w] + ws)[0] == w && ([w] + ws)[1..] == ws;
  }

  /** A whitespace run of length m, followed by a non-whitespace character or the end,
      squeezes to one space. */
  lemma {:induction false} SqueezeRun(u: string, m: nat)
    requires 1 <= m <= |u| && forall k :: 0 <= k < m ==> IsSpace(u[k])
    requires m == |u| || !IsSpace(u[m])
    ensures Squeeze(u) == " " + Squeeze(u[m..])
    decreases m
  {
    if m > 1 {
      assert IsSpace(u[1]);
      SqueezeRun(u[1..], m - 1);
      assert u[1..][m - 1..] == u[m..];
    } else {
      assert |u| > 1 ==> !IsSpace(u[1]);
    }
  }

  /** A word followed by a whitespace run squeezes to the word and one space. */
  lemma SqueezeAtRun(w: string, run: string, rest: string)
    requires NoSpace(w) && run != [] && forall k :: 0 <= k < |run| ==> IsSpace(run[k])
    requires rest == [] || !IsSpace(rest[0])
    ensures Squeeze(w + run + rest) == w + " " + Squeeze(rest)
  {
    var u := run + rest;
    assert w + run + rest == w + u;
    SqueezeWord(w, u);
    assert (u[|run|..] == rest) && (forall k :: 0 <= k < |run| ==> u[k] == run[k]);
    SqueezeRun(u, |run|);
    assert w + (" " + Squeeze(rest)) == w + " " + Squeeze(rest);
  }

  /** The same, with the word and the run given as positions in `t`. */
  lemma SqueezeAtRunAt(t: string, i: nat, j: nat)
    requires i < j <= |t| && NoSpace(t[..i]) && forall k :: i <= k < j ==> IsSpace(t[k])
    requires j == |t| || !IsSpace(t[j])
    ensures Squeeze(t) == t[..i] + " " + Squeeze(t[j..])
  {
    var w, run, rest := t[..i], t[i..j], t[j..];
    assert t == w + run + rest;
    assert forall k :: 0 <= k < |run| ==> IsSpace(run[k]);
    assert rest == [] || rest[0] == t[j];
    SqueezeAtRun(w, run, rest);
  }

  /** `split(/\s+/)` cuts exactly at the whitespace runs: joining the words with single
      spaces gives the text with each run squeezed to one space. As no word holds
      whitespace, this fixes the words. */
  lemma {:induction false} SplitWsSqueeze(t: string)
    ensures JoinWith(SplitWs(t), " ") == Squeeze(t)
    decreases |t|
  {
    var first := FirstSpace(t);
    if first.None? {
      assert SplitWs(t) == [t];
      assert Squeeze(t) == t by {
        assert t + [] == t;
        SqueezeWord(t, []);
      }
    } else {
      var i := first.value;
      var j := SkipSpaces(t, i + 1);
      var rest := t[j..];
      var joined := t[..i] + " " + Squeeze(rest);
      assert JoinWith(SplitWs(t), " ") == joined by {
        var ws := SplitWs(rest);
        assert SplitWs(t) == [t[..i]] + ws;
        JoinCons(t[..i], ws, " ");
        SplitWsSqueeze(rest);
      }
      assert Squeeze(t) == joined by {
        assert forall k :: i <= k < j ==> IsSpace(t[k]);
        SqueezeAtRunAt(t, i, j);
      }
    }
  }

  function Upper(c: char): (u: char)
    ensures !('a' <= u <= 'z') && (IsSpace(u) <==> IsSpace(c))
    ensures !('a' <= c <= 'z') ==> u == c
  {
    if 'a' <= c <= 'z' then (c as int - 32) as char else c
  }

  /** `toUpperCase()` on ASCII letters. */
  function UpperStr(s: string): (r: string)
    ensures |r| == |s| && forall i :: 0 <= i < |s| ==> r[i] == Upper(s[i])
    ensures forall i :: 0 <= i < |r| ==> !('a' <= r[i] <= 'z')
    ensures NoSpace(s) ==> NoSpace(r)
  {
    seq(|s|, i requires 0 <= i < |s| => Upper(s[i]))
  }

  /** The word list of a trimmed, non-blank name: every word is a non-empty run of
      non-whitespace characters. */
  lemma TrimmedWords(t: string)
    requires t != [] && !IsSpace(t[0]) && !IsSpace(t[|t| - 1])
    ensures var words := SplitWs(t);
      forall k :: 0 <= k < |words| ==> words[k] != [] && NoSpace(words[k])
  {
  }

  /** The initials of a list of non-empty words: the first two characters of a single
      word, else the first characters of the first two words; upper-cased. */
  function WordInitials(words: seq<string>): (r: string)
    requires |words| >= 1
    requires forall k :: 0 <= k < |words| ==> words[k] != [] && NoSpace(words[k])
    ensures 1 <= |r| <= 2 && NoSpace(r)
    ensures forall i :: 0 <= i < |r| ==> !('a' <= r[i] <= 'z')
  {
    var w := words[0];
    assert w != [] && NoSpace(w);
    if |words| == 1 then
      var prefix := w[..if |w| < 2 then |w| else 2];
      assert NoSpace(prefix) by {
        assert forall i :: 0 <= i < |prefix| ==> prefix[i] == w[i];
      }
      UpperStr(prefix)
    else
      var v := words[1];
      assert v != [] && NoSpace(v);
      assert !IsSpace(w[0]) && !IsSpace(v[0]);
      var pair := [w[0], v[0]];
      assert NoSpace(pair) by {
        assert forall i :: 0 <= i < 2 ==> pair[i] == w[0] || pair[i] == v[0];
      }
      UpperStr(pair)
  }

  /** The initials of an already trimmed, non-blank name. */
  function TrimmedInitials(t: string): (r: string)
    requires t != [] && !IsSpace(t[0]) && !IsSpace(t[|t| - 1])
    ensures 1 <= |r| <= 2 && NoSpace(r)
    ensures forall i :: 0 <= i < |r| ==> !('a' <= r[i] <= 'z')
  {
    TrimmedWords(t);
    WordInitials(SplitWs(t))
  }

  /** getTeamInitials: "??" for a blank name, otherwise the initials of its words. */
  function TeamInitials(name: string): string
  {
    var trimmed := Trim(name);
    if trimmed == [] then "??" else TrimmedInitials(trimmed)
  }

  /** Initials are "??" for a blank name, and always one or two characters, none of them
      whitespace or a lower-case letter. */
  lemma InitialsShape(name: string)
    ensures Trim(name) == [] ==> TeamInitials(name) == "??"
    ensures var r := TeamInitials(name);
            1 <= |r| <= 2 && NoSpace(r) && forall i :: 0 <= i < |r| ==> !('a' <= r[i] <= 'z')
  {
    if Trim(name) == [] {
      var unknown := "??";
      assert unknown[0] == '?' && unknown[1] == '?';
    }
  }

  lemma {:induction false} TrimStartNoSpace(s: string)
    requires s == [] || !IsSpace(s[0])
    ensures TrimStart(s) == s
  {
  }

  /** A string without whitespace at either end is already trimmed. */
  lemma TrimNoEdgeSpace(s: string)
    requires s == [] || (!IsSpace(s[0]) && !IsSpace(s[|s| - 1]))
    ensures Trim(s) == s
  {
    TrimStartNoSpace(s);
    assert s == [] || TrimEnd(s) == s;
  }

  lemma TrimOfSpaceFree(s: string)
    requires NoSpace(s)
    ensures Trim(s) == s
  {
    assert s != [] ==> !IsSpace(s[0]) && !IsSpace(s[|s| - 1]);
  }

  lemma SplitOfSpaceFree(s: string)
    requires NoSpace(s)
    ensures SplitWs(s) == [s]
  {
  }

  lemma UpperStrFixed(s: string)
    requires forall i :: 0 <= i < |s| ==> !('a' <= s[i] <= 'z')
    ensures UpperStr(s) == s
  {
  }

  /** A short, space-free, upper-case string is its own initials. */
  lemma InitialsOfInitials(r: string)
    requires 1 <= |r| <= 2 && NoSpace(r)
    requires forall i :: 0 <= i < |r| ==> !('a' <= r[i] <= 'z')
    ensures TeamInitials(r) == r
  {
    assert TeamInitials(r) == TrimmedInitials(r) by {
      TrimOfSpaceFree(r);
    }
    assert TrimmedInitials(r) == WordInitials([r]) by {
      SplitOfSpaceFree(r);
    }
    assert WordInitials([r]) == r by {
      assert r[..if |r| < 2 then |r| else 2] == r;
      UpperStrFixed(r);
    }
  }

  /** Initials are a fixed point: they are already trimmed, one word and upper case. */
  lemma InitialsIdempotent(name: string)
    ensures TeamInitials(TeamInitials(name)) == TeamInitials(name)
  {
    InitialsShape(name);
    InitialsOfInitials(TeamInitials(name));
  }

  /** Surrounding whitespace does not change the initials. */
  lemma {:induction false} LeadingSpaceIgnored(c: char, name: string)
    requires IsSpace(c)
    ensures TeamInitials([c] + name) == TeamInitials(name)
  {
    assert ([c] + name)[1..] == name;
  }

  lemma {:induction false} TrailingSpaceIgnored(name: string, c: char)
    requires IsSpace(c)
    ensures TeamInitials(name + [c]) == TeamInitials(name)
  {
    TrimStartSpace(name, c);
    var t := TrimStart(name);
    TrimEndSpace(t, c);
    assert Trim(name + [c]) == Trim(name);
  }

  lemma TrimEndSpace(s: string, c: char)
    requires IsSpace(c)
    ensures TrimEnd(s + [c]) == TrimEnd(s)
  {
    assert (s + [c])[..|s|] == s;
  }

  lemma {:induction false} TrimStartSpace(s: string, c: char)
    requires IsSpace(c)
    ensures TrimStart(s + [c]) == TrimStart(s) + [c] || (TrimStart(s) == [] && TrimStart(s + [c]) == [])
    decreases |s|
  {
    if s == [] {
      assert TrimStart([c]) == TrimStart([c][1..]);
    } else if IsSpace(s[0]) {
      assert (s + [c])[1..] == s[1..] + [c];
      TrimStartSpace(s[1..], c);
    }
  }

  /** A name that is one word after trimming yields its first two characters. */
  lemma SingleWordInitials(name: string)
    requires Trim(name) != [] && NoSpace(Trim(name))
    ensures var t := Trim(name);
      TeamInitials(name) == UpperStr(t[..if |t| < 2 then |t| else 2])
  {
    SplitOfSpaceFree(Trim(name));
  }

  /** Splitting at the first whitespace: the first word ends there and the second word
      starts after the whitespace run. */
  lemma {:induction false} SplitAtFirstSpace(t: string, i: nat)
    requires t != [] && !IsSpace(t[|t| - 1]) && FirstSpace(t) == Some(i)
    ensures var j := SkipSpaces(t, i + 1); var words := SplitWs(t);
      j < |t| && |words| >= 2 && words[0] == t[..i] && words[1] != [] && words[1][0] == t[j]
  {
    var j := SkipSpaces(t, i + 1);
    var rest := t[j..];
    assert rest[0] == t[j] && rest[|rest| - 1] == t[|t| - 1];
    assert SplitWs(t) == [t[..i]] + SplitWs(rest);
  }

  /** A name of several words yields the first character of the trimmed name and the
      first character after its first whitespace run. */
  lemma MultiWordInitials(name: string, i: nat)
    requires FirstSpace(Trim(name)) == Some(i)
    ensures var t := Trim(name); var j := SkipSpaces(t, i + 1);
      j < |t| && TeamInitials(name) == [Upper(t[0]), Upper(t[j])]
  {
    var t := Trim(name);
    assert t != [];
    SplitAtFirstSpace(t, i);
    var words := SplitWs(t);
    assert i > 0 by { assert !IsSpace(t[0]); }
    assert words[0][0] == t[0];
    TrimmedWords(t);
    assert TeamInitials(name) == WordInitials(words);
    assert WordInitials(words) == UpperStr([t[0], t[SkipSpaces(t, i + 1)]]);
    UpperPair(t[0], t[SkipSpaces(t, i + 1)]);
  }

  lemma UpperPair(a: char, b: char)
    ensures UpperStr([a, b]) == [Upper(a), Upper(b)]
  {
  }

  /** The first whitespace character is the one with none before it. */
  lemma FirstSpaceAt(t: string, i: nat)
    requires i < |t| && IsSpace(t[i]) && NoSpace(t[..i])
    ensures FirstSpace(t) == Some(i)
  {
  }

  /** In two space-free words joined by a space, the first space follows the first word. */
  lemma TwoWordFirstSpace(a: string, b: string)
    requires NoSpace(a)
    ensures FirstSpace(a + " " + b) == Some(|a|)
  {
    var t := a + " " + b;
    assert t[|a|] == ' ';
    assert NoSpace(t[..|a|]) by {
      forall k | 0 <= k < |a| ensures t[..|a|][k] == a[k] {
        assert t[k] == a[k];
      }
    }
    FirstSpaceAt(t, |a|);
  }

  /** Two words joined by one space give the upper-cased first letter of each. */
  lemma TwoWordInitials(a: string, b: string)
    requires a != [] && b != [] && NoSpace(a) && NoSpace(b)
    ensures TeamInitials(a + " " + b) == [Upper(a[0]), Upper(b[0])]
  {
    var t := a + " " + b;
    assert t[0] == a[0] && t[|a| + 1] == b[0];
    assert Trim(t) == t by {
      assert t[|t| - 1] == b[|b| - 1];
      TrimNoEdgeSpace(t);
    }
    assert FirstSpace(Trim(t)) == Some(|a|) by {
      TwoWordFirstSpace(a, b);
    }
    assert SkipSpaces(t, |a| + 1) == |a| + 1;
    MultiWordInitials(t, |a|);
  }

  lemma InitialsExampleTwoWords()
    ensures TeamInitials("Gator Nation") == "GN"
  {
    var a, b := "Gator", "Nation";
    assert NoSpace(a) && NoSpace(b);
    assert a + " " + b == "Gator Nation";
    TwoWordInitials(a, b);
  }

  lemma InitialsExampleOneWord()
    ensures TeamInitials("gators") == "GA"
  {
    var t := "gators";
    assert NoSpace(t) by {
      forall i | 0 <= i < |t| ensures !IsSpace(t[i]) {
      }
    }
    TrimOfSpaceFree(t);
    SingleWordInitials(t);
    assert t[..2] == ['g', 'a'];
    UpperPair('g', 'a');
    assert [Upper('g'), Upper('a')] == "GA";
  }

  lemma InitialsExampleBlank()
    ensures TeamInitials("  ") == "??"
  {
    assert TrimStart("  ") == [];
  }
}
