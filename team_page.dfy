/** The lineup engine of the team page (src/Pages/TeamPage.tsx): resolving server
    lineups against the roster, the default lineup, the week fallback rule, starter
    points, the bench and the bench/lineup edits. */
module TeamPage {
  import opened Wrappers
  import opened LineupSlots
  import opened WeekKeys
  import opened League
  import Collections

  /** A resolved lineup: each filled slot holds a player. */
  type Lineup = map<Slot, Player>

  // ---------------------------------------------------------------------------------
  // mapServerLineup, mapServerLineups, lineupToPayload

  /** What mapServerLineup computes: a slot is filled when the raw lineup names a present
      id for it and the roster has a player with that id (the first such player). */
  function ServerLineup(raw: Option<RawLineup>, roster: seq<Player>): (l: Lineup)
    ensures forall s :: s in l <==>
      raw.Some? && SlotPlayerId(raw.value, s).Some? &&
      FindById(roster, SlotPlayerId(raw.value, s).value).Some?
    ensures forall s :: s in l ==> l[s] in roster && l[s].id == SlotPlayerId(raw.value, s).value
  {
    SlotsAreExact();
    match raw
    case None => map[]
    case Some(r) =>
      map s | s in AllSlots && SlotPlayerId(r, s).Some? && FindById(roster, SlotPlayerId(r, s).value).Some?
        :: roster[FindById(roster, SlotPlayerId(r, s).value).value]
  }

  /** mapServerLineup: walk the slots, look each slot's id up in the roster, keep the
      slots whose player is found. */
  method MapServerLineup(raw: Option<RawLineup>, roster: seq<Player>) returns (starters: Lineup)
    ensures starters == ServerLineup(raw, roster)
  {
    starters := map[];
    if raw.None? {
      return;
    }
    var r := raw.value;
    ghost var full := ServerLineup(raw, roster);
    SlotsAreExact();
    for i := 0 to |Slots|
      invariant forall s :: s in starters <==> SlotIndex(s) < i && s in full
      invariant forall s :: s in starters ==> starters[s] == full[s]
    {
      var slot := Slots[i];
      assert SlotIndex(slot) == i;
      var playerId := SlotPlayerId(r, slot);
      if playerId.None? {
        continue;
      }
      var player := FindById(roster, playerId.value);
      if player.Some? {
        starters := starters[slot := roster[player.value]];
      }
    }
    assert starters.Keys == full.Keys;
  }

  /** mapServerLineups: resolve every week's raw lineup; weeks whose lineup resolves to
      nothing are kept as empty lineups. */
  function MapServerLineups(raw: Option<map<string, RawLineup>>, roster: seq<Player>): (r: map<string, Lineup>)
    ensures raw.None? ==> r == map[]
    ensures raw.Some? ==> r.Keys == raw.value.Keys
    ensures raw.Some? ==> forall k :: k in r ==> r[k] == ServerLineup(Some(raw.value[k]), roster)
  {
    match raw
    case None => map[]
    case Some(m) => map k | k in m :: ServerLineup(Some(m[k]), roster)
  }

  /** The value lineupToPayload sends for one slot. */
  function PayloadValue(l: Lineup, s: Slot): Option<string>
  {
    if s in l then Some(l[s].id) else None
  }

  /** lineupToPayload: every slot name, with the starter's id or null. */
  function LineupToPayload(l: Lineup): (p: RawLineup)
    ensures |p| == 5
    ensures forall s :: Name(s) in p && p[Name(s)] == PayloadValue(l, s)
    ensures forall k :: k in p ==> SlotOf(k).Some?
  {
    var p := map[Name(Passing) := PayloadValue(l, Passing), Name(Rushing) := PayloadValue(l, Rushing),
                 Name(Receiving) := PayloadValue(l, Receiving), Name(Defense) := PayloadValue(l, Defense),
                 Name(Kicking) := PayloadValue(l, Kicking)];
    PayloadShape(l, p);
    p
  }

  lemma PayloadShape(l: Lineup, p: RawLineup)
    requires p == map[Name(Passing) := PayloadValue(l, Passing), Name(Rushing) := PayloadValue(l, Rushing),
                      Name(Receiving) := PayloadValue(l, Receiving), Name(Defense) := PayloadValue(l, Defense),
                      Name(Kicking) := PayloadValue(l, Kicking)]
    ensures |p| == 5
    ensures forall s :: Name(s) in p && p[Name(s)] == PayloadValue(l, s)
  {
    forall s: Slot ensures Name(s) in p && p[Name(s)] == PayloadValue(l, s) {
      match s
      case Passing =>
      case Rushing =>
      case Receiving =>
      case Defense =>
      case Kicking =>
    }
    assert p.Keys == {"Passing", "Rushing", "Receiving", "Defense"} + {"Kicking"};
    assert |{"Passing", "Rushing", "Receiving", "Defense"}| == 4 by {
      assert {"Passing", "Rushing", "Receiving", "Defense"} == {"Passing", "Rushing", "Receiving"} + {"Defense"};
      assert |{"Passing", "Rushing", "Receiving"}| == 3 by {
        assert {"Passing", "Rushing", "Receiving"} == {"Passing", "Rushing"} + {"Receiving"};
      }
    }
  }

  /** Every starter is a roster player with a non-empty id. */
  ghost predicate DrawnFrom(l: Lineup, roster: seq<Player>)
  {
    forall s :: s in l ==> l[s] in roster && l[s].id != ""
  }

  /** Saving a lineup and reading it back gives the same lineup, when its players come
      from a roster with distinct, non-empty ids. */
  lemma PayloadRoundTrip(l: Lineup, roster: seq<Player>)
    requires DistinctIds(roster)
    requires DrawnFrom(l, roster)
    ensures ServerLineup(Some(LineupToPayload(l)), roster) == l
  {
    var back := ServerLineup(Some(LineupToPayload(l)), roster);
    assert back.Keys == l.Keys by {
      forall s ensures s in back <==> s in l {
        PayloadSlotRoundTrip(l, roster, s);
      }
    }
    assert forall s :: s in back ==> back[s] == l[s] by {
      forall s | s in back ensures back[s] == l[s] {
        PayloadSlotRoundTrip(l, roster, s);
      }
    }
    Collections.MapExtensional(back, l);
  }

  /** The round trip for one slot. */
  lemma PayloadSlotRoundTrip(l: Lineup, roster: seq<Player>, s: Slot)
    requires DistinctIds(roster)
    requires DrawnFrom(l, roster)
    ensures var back := ServerLineup(Some(LineupToPayload(l)), roster);
            (s in back <==> s in l) && (s in l ==> back[s] == l[s])
  {
    var p := LineupToPayload(l);
    assert p[Name(s)] == PayloadValue(l, s);
    if s in l {
      assert SlotPlayerId(p, s) == Some(l[s].id);
      var j :| 0 <= j < |roster| && roster[j] == l[s];
      FindByIdDistinct(roster, j);
    } else {
      assert SlotPlayerId(p, s).None?;
    }
  }

  /** The same round trip for every week of a lineups map. */
  lemma PayloadsRoundTrip(lineups: map<string, Lineup>, payloads: map<string, RawLineup>, roster: seq<Player>)
    requires DistinctIds(roster)
    requires forall k :: k in lineups ==> DrawnFrom(lineups[k], roster)
    requires payloads.Keys == lineups.Keys
    requires forall k :: k in payloads ==> payloads[k] == LineupToPayload(lineups[k])
    ensures MapServerLineups(Some(payloads), roster) == lineups
  {
    var back := MapServerLineups(Some(payloads), roster);
    forall k | k in lineups
      ensures back[k] == lineups[k]
    {
      var pk := payloads[k];
      PayloadRoundTrip(lineups[k], roster);
      assert ServerLineup(Some(pk), roster) == lineups[k];
      assert back[k] == ServerLineup(Some(pk), roster);
    }
    Collections.MapExtensional(back, lineups);
  }

  // ---------------------------------------------------------------------------------
  // buildDefaultLineup

  /** The slots filled so far and the set of player ids already used. */
  datatype Assignment = Assignment(starters: Lineup, taken: set<string>)

  /** The ids of a lineup's starters. */
  function IdsOf(l: Lineup): set<string>
  {
    set s | s in l :: l[s].id
  }

  /** The ids of a roster. */
  function RosterIds(roster: seq<Player>): set<string>
  {
    set i | 0 <= i < |roster| :: roster[i].id
  }

  /** `roster.find((p) => p.position === slot && !taken.has(p._id))` */
  function FindPositioned(roster: seq<Player>, slot: Slot, taken: set<string>): (r: Option<nat>)
    ensures r.Some? ==> r.value < |roster| && roster[r.value].position == Some(slot) && roster[r.value].id !in taken
    ensures r.Some? ==> forall j :: 0 <= j < r.value ==> !(roster[j].position == Some(slot) && roster[j].id !in taken)
    ensures r.None? ==> forall j :: 0 <= j < |roster| ==> !(roster[j].position == Some(slot) && roster[j].id !in taken)
    decreases |roster|
  {
    if roster == [] then None
    else if roster[0].position == Some(slot) && roster[0].id !in taken then Some(0)
    else match FindPositioned(roster[1..], slot, taken)
      case Some(k) => Some(k + 1)
      case None => None
  }

  /** `roster.find((p) => !taken.has(p._id))` */
  function FindUntaken(roster: seq<Player>, taken: set<string>): (r: Option<nat>)
    ensures r.Some? ==> r.value < |roster| && roster[r.value].id !in taken
    ensures r.Some? ==> forall j :: 0 <= j < r.value ==> roster[j].id in taken
    ensures r.None? ==> forall j :: 0 <= j < |roster| ==> roster[j].id in taken
    decreases |roster|
  {
    if roster == [] then None
    else if roster[0].id !in taken then Some(0)
    else match FindUntaken(roster[1..], taken)
      case Some(k) => Some(k + 1)
      case None => None
  }

  /** The first roster player whose position is the slot. */
  function FirstAtPosition(roster: seq<Player>, slot: Slot): Option<nat>
  {
    FindPositioned(roster, slot, {})
  }

  /** One step of the first loop: give the slot the first unused player of its position. */
  function PositionStep(roster: seq<Player>, slot: Slot, a: Assignment): Assignment
  {
    match FindPositioned(roster, slot, a.taken)
    case Some(k) => Assignment(a.starters[slot := roster[k]], a.taken + {roster[k].id})
    case None => a
  }

  /** One step of the second loop: give a still empty slot the first unused player. */
  function FillStep(roster: seq<Player>, slot: Slot, a: Assignment): Assignment
  {
    if slot in a.starters then a
    else match FindUntaken(roster, a.taken)
      case Some(k) => Assignment(a.starters[slot := roster[k]], a.taken + {roster[k].id})
      case None => a
  }

  function PositionPass(roster: seq<Player>, slots: seq<Slot>, a: Assignment): Assignment
    decreases |slots|
  {
    if slots == [] then a else PositionPass(roster, slots[1..], PositionStep(roster, slots[0], a))
  }

  function FillPass(roster: seq<Player>, slots: seq<Slot>, a: Assignment): Assignment
    decreases |slots|
  {
    if slots == [] then a else FillPass(roster, slots[1..], FillStep(roster, slots[0], a))
  }

  /** What buildDefaultLineup computes: both passes over the slots in canonical order,
      starting with no slot filled and no player used. */
  function DefaultAssignment(roster: seq<Player>): Assignment
  {
    FillPass(roster, Slots, PositionPass(roster, Slots, Assignment(map[], {})))
  }

  function DefaultLineup(roster: seq<Player>): Lineup
  {
    DefaultAssignment(roster).starters
  }

  /** buildDefaultLineup: the greedy two-pass slot assignment. */
  method BuildDefaultLineup(roster: seq<Player>) returns (starters: Lineup)
    ensures starters == DefaultLineup(roster)
    ensures forall s :: s in starters ==> starters[s] in roster
    ensures forall s, t :: s in starters && t in starters && s != t ==> starters[s].id != starters[t].id
  {
    starters := map[];
    var taken: set<string> := {};
    ghost var afterFirst := PositionPass(roster, Slots, Assignment(map[], {}));
    for i := 0 to |Slots|
      invariant PositionPass(roster, Slots[i..], Assignment(starters, taken)) == afterFirst
    {
      var slot := Slots[i];
      assert Slots[i..][1..] == Slots[i + 1..];
      var candidate := FindPositioned(roster, slot, taken);
      if candidate.Some? {
        starters := starters[slot := roster[candidate.value]];
        taken := taken + {roster[candidate.value].id};
      }
    }
    for i := 0 to |Slots|
      invariant FillPass(roster, Slots[i..], Assignment(starters, taken)) == DefaultAssignment(roster)
    {
      var slot := Slots[i];
      assert Slots[i..][1..] == Slots[i + 1..];
      if slot !in starters {
        var fallback := FindUntaken(roster, taken);
        if fallback.Some? {
          starters := starters[slot := roster[fallback.value]];
          taken := taken + {roster[fallback.value].id};
        }
      }
    }
    DefaultLineupFacts(roster);
  }

  /** The bookkeeping both passes keep: starters come from the roster, no id is used
      twice, and `taken` is exactly the set of starter ids. */
  ghost predicate Consistent(roster: seq<Player>, a: Assignment)
  {
    && (forall s :: s in a.starters ==> a.starters[s] in roster)
    && (forall s, t :: s in a.starters && t in a.starters && s != t ==> a.starters[s].id != a.starters[t].id)
    && a.taken == IdsOf(a.starters)
    && |a.starters| == |a.taken|
  }

  /** After the first pass alone, every starter plays its own position. */
  ghost predicate AtOwnPosition(a: Assignment)
  {
    forall s :: s in a.starters ==> a.starters[s].position == Some(s)
  }

  /** `b` keeps every slot `a` filled, with the same player. */
  ghost predicate Extends(a: Assignment, b: Assignment)
  {
    forall s :: s in a.starters ==> s in b.starters && b.starters[s] == a.starters[s]
  }

  /** Adding a player under a new slot adds exactly that player's id. */
  lemma IdsOfAdd(l: Lineup, slot: Slot, p: Player)
    requires slot !in l
    ensures IdsOf(l[slot := p]) == IdsOf(l) + {p.id}
  {
    var l' := l[slot := p];
    forall x | x in IdsOf(l')
      ensures x in IdsOf(l) + {p.id}
    {
      var s :| s in l' && l'[s].id == x;
      if s != slot {
        assert l[s].id == x;
      }
    }
    forall x | x in IdsOf(l) + {p.id}
      ensures x in IdsOf(l')
    {
      if x == p.id {
        assert l'[slot].id == x;
      } else {
        var s :| s in l && l[s].id == x;
        assert l'[s].id == x;
      }
    }
  }

  /** Giving an empty slot a player whose id is unused keeps the bookkeeping. */
  lemma AddKeepsConsistent(roster: seq<Player>, a: Assignment, slot: Slot, k: nat)
    requires Consistent(roster, a) && slot !in a.starters
    requires k < |roster| && roster[k].id !in a.taken
    ensures Consistent(roster, Assignment(a.starters[slot := roster[k]], a.taken + {roster[k].id}))
  {
    IdsOfAdd(a.starters, slot, roster[k]);
  }

  /** With distinct roster ids, a roster player whose id is not taken is the first
      unused player of its position exactly when it is the first of its position. */
  lemma FirstUnusedIsFirst(roster: seq<Player>, slot: Slot, a: Assignment)
    requires DistinctIds(roster) && Consistent(roster, a) && AtOwnPosition(a)
    requires slot !in a.starters && FirstAtPosition(roster, slot).Some?
    ensures FindPositioned(roster, slot, a.taken) == FirstAtPosition(roster, slot)
  {
    var k0 := FirstAtPosition(roster, slot).value;
    assert roster[k0].id !in a.taken;
    var r := FindPositioned(roster, slot, a.taken);
    assert r.Some?;
    assert r.value == k0;
  }

  /** One step of the first pass keeps the bookkeeping and fills at most its own slot,
      with a player of that position. */
  lemma PositionStepKeeps(roster: seq<Player>, slot: Slot, a: Assignment)
    requires slot !in a.starters && Consistent(roster, a) && AtOwnPosition(a)
    ensures var b := PositionStep(roster, slot, a);
            Consistent(roster, b) && AtOwnPosition(b) && Extends(a, b) &&
            b.starters.Keys <= a.starters.Keys + {slot}
  {
    var b := PositionStep(roster, slot, a);
    var found := FindPositioned(roster, slot, a.taken);
    if found.Some? {
      var k := found.value;
      assert b == Assignment(a.starters[slot := roster[k]], a.taken + {roster[k].id});
      AddKeepsConsistent(roster, a, slot, k);
      assert roster[k].position == Some(slot);
    } else {
      assert b == a;
    }
  }

  /** With distinct roster ids, one step of the first pass gives its slot the first
      roster player of that position, if there is one. */
  lemma PositionStepFirst(roster: seq<Player>, slot: Slot, a: Assignment)
    requires slot !in a.starters && Consistent(roster, a) && AtOwnPosition(a)
    requires DistinctIds(roster) && FirstAtPosition(roster, slot).Some?
    ensures var b := PositionStep(roster, slot, a);
            slot in b.starters && b.starters[slot] == roster[FirstAtPosition(roster, slot).value]
  {
    FirstUnusedIsFirst(roster, slot, a);
  }

  /** One step of the first pass. */
  lemma PositionStepFacts(roster: seq<Player>, slot: Slot, a: Assignment)
    requires slot !in a.starters && Consistent(roster, a) && AtOwnPosition(a)
    ensures var b := PositionStep(roster, slot, a);
            Consistent(roster, b) && AtOwnPosition(b) && Extends(a, b) &&
            b.starters.Keys <= a.starters.Keys + {slot}
    ensures DistinctIds(roster) && FirstAtPosition(roster, slot).Some? ==>
            var b := PositionStep(roster, slot, a);
            slot in b.starters && b.starters[slot] == roster[FirstAtPosition(roster, slot).value]
  {
    PositionStepKeeps(roster, slot, a);
    if DistinctIds(roster) && FirstAtPosition(roster, slot).Some? {
      PositionStepFirst(roster, slot, a);
    }
  }

  /** The first pass: it keeps the bookkeeping, only adds slots, and, with distinct
      roster ids, gives every slot it visits the first roster player of that position. */
  lemma {:induction false} PositionPassFacts(roster: seq<Player>, slots: seq<Slot>, a: Assignment)
    requires Collections.Distinct(slots)
    requires forall s :: s in slots ==> s !in a.starters
    requires Consistent(roster, a) && AtOwnPosition(a)
    ensures var r := PositionPass(roster, slots, a);
            Consistent(roster, r) && AtOwnPosition(r) && Extends(a, r)
    ensures DistinctIds(roster) ==>
            var r := PositionPass(roster, slots, a);
            forall s :: s in slots && FirstAtPosition(roster, s).Some? ==>
              s in r.starters && r.starters[s] == roster[FirstAtPosition(roster, s).value]
    decreases |slots|
  {
    if slots != [] {
      var slot := slots[0];
      var b := PositionStep(roster, slot, a);
      PositionStepFacts(roster, slot, a);
      assert forall s :: s in slots[1..] ==> s !in b.starters by {
        forall s | s in slots[1..] ensures s !in b.starters {
          var i :| 0 <= i < |slots[1..]| && slots[1..][i] == s;
          assert slots[i + 1] == s && slots[0] != slots[i + 1];
        }
      }
      assert Collections.Distinct(slots[1..]) by {
        forall i, j | 0 <= i < j < |slots[1..]| ensures slots[1..][i] != slots[1..][j] {
          assert slots[1..][i] == slots[i + 1] && slots[1..][j] == slots[j + 1];
        }
      }
      PositionPassFacts(roster, slots[1..], b);
      var r := PositionPass(roster, slots, a);
      assert r == PositionPass(roster, slots[1..], b);
      if DistinctIds(roster) {
        forall s | s in slots && FirstAtPosition(roster, s).Some?
          ensures s in r.starters && r.starters[s] == roster[FirstAtPosition(roster, s).value]
        {
          if s != slot {
            assert s in slots[1..];
          }
        }
      }
    }
  }

  /** One step of the second pass. */
  lemma FillStepFacts(roster: seq<Player>, slot: Slot, a: Assignment)
    requires Consistent(roster, a)
    ensures var b := FillStep(roster, slot, a);
            Consistent(roster, b) && a.taken <= b.taken && Extends(a, b) &&
            (slot in b.starters || RosterIds(roster) <= b.taken)
  {
    if slot !in a.starters {
      match FindUntaken(roster, a.taken)
      case Some(k) => AddKeepsConsistent(roster, a, slot, k);
      case None =>
        assert RosterIds(roster) <= a.taken;
    }
  }

  /** The second pass: it keeps the bookkeeping, never replaces a filled slot, and every
      slot it visits ends up filled unless every roster id is already used. */
  lemma {:induction false} FillPassFacts(roster: seq<Player>, slots: seq<Slot>, a: Assignment)
    requires Consistent(roster, a)
    ensures var r := FillPass(roster, slots, a);
            Consistent(roster, r) && a.taken <= r.taken && Extends(a, r) &&
            (forall s :: s in slots ==> s in r.starters || RosterIds(roster) <= r.taken)
    decreases |slots|
  {
    if slots != [] {
      var b := FillStep(roster, slots[0], a);
      FillStepFacts(roster, slots[0], a);
      FillPassFacts(roster, slots[1..], b);
    }
  }

  /** With distinct ids a roster has as many ids as players. */
  lemma {:induction false} RosterIdsCard(roster: seq<Player>)
    requires DistinctIds(roster)
    ensures |RosterIds(roster)| == |roster|
  {
    if roster != [] {
      var init := roster[..|roster| - 1];
      RosterIdsCard(init);
      assert RosterIds(roster) == RosterIds(init) + {roster[|roster| - 1].id};
    }
  }

  /** The ids a consistent assignment has taken are roster ids. */
  lemma TakenFromRoster(roster: seq<Player>, a: Assignment)
    requires Consistent(roster, a)
    ensures a.taken <= RosterIds(roster)
  {
    forall x | x in a.taken ensures x in RosterIds(roster) {
      var s :| s in a.starters && a.starters[s].id == x;
      var j :| 0 <= j < |roster| && roster[j] == a.starters[s];
    }
  }

  /** The size of the default lineup, from the facts of the second pass. */
  lemma FilledCount(roster: seq<Player>, a: Assignment)
    requires Consistent(roster, a)
    requires forall s :: s in Slots ==> s in a.starters || RosterIds(roster) <= a.taken
    ensures |roster| > 0 ==> |a.starters| > 0
    ensures DistinctIds(roster) ==> |a.starters| == if |roster| < 5 then |roster| else 5
  {
    SlotsAreExact();
    SlotMapSize(a.starters);
    TakenFromRoster(roster, a);
    Collections.SubsetCard(a.taken, RosterIds(roster));
    if DistinctIds(roster) {
      RosterIdsCard(roster);
    }
    if s :| s !in a.starters {
      assert s == Slots[SlotIndex(s)];
      assert RosterIds(roster) <= a.taken;
      if |roster| > 0 {
        assert roster[0].id in RosterIds(roster);
      }
      if DistinctIds(roster) {
        Collections.SubsetCard(RosterIds(roster), a.taken);
      }
    }
  }

  /** The default lineup uses roster players only and never the same id twice; every
      position some roster player holds goes to the first such player; and it fills
      min(5, roster size) slots. */
  lemma DefaultLineupFacts(roster: seq<Player>)
    ensures var r := DefaultLineup(roster);
            (forall s :: s in r ==> r[s] in roster) &&
            (forall s, t :: s in r && t in r && s != t ==> r[s].id != r[t].id) &&
            (|roster| > 0 ==> |r| > 0)
    ensures DistinctIds(roster) ==>
            var r := DefaultLineup(roster);
            forall s :: FirstAtPosition(roster, s).Some? ==> s in r && r[s] == roster[FirstAtPosition(roster, s).value]
    ensures DistinctIds(roster) ==> |DefaultLineup(roster)| == if |roster| < 5 then |roster| else 5
  {
    SlotsAreExact();
    var empty := Assignment(map[], {});
    assert IdsOf(map[]) == {};
    assert Consistent(roster, empty) && AtOwnPosition(empty);
    PositionPassFacts(roster, Slots, empty);
    var mid := PositionPass(roster, Slots, empty);
    FillPassFacts(roster, Slots, mid);
    var fin := FillPass(roster, Slots, mid);
    assert fin == DefaultAssignment(roster);
    FilledCount(roster, fin);
    if DistinctIds(roster) {
      forall s | FirstAtPosition(roster, s).Some?
        ensures s in fin.starters && fin.starters[s] == roster[FirstAtPosition(roster, s).value]
      {
        assert s == Slots[SlotIndex(s)];
      }
    }
  }

  // ---------------------------------------------------------------------------------
  // pickLineupForWeek and the week-sync effect

  /** The week numbers of the keys of `m` that parse. */
  function ParsedWeeks<V>(m: map<string, V>): (ws: set<nat>)
    ensures forall n: nat :: n in ws <==> WeekKey(n) in m
  {
    var ws := set k | k in m && ParseWeek(k).Some? :: ParseWeek(k).value;
    forall n ensures n in ws <==> WeekKey(n) in m {
      ParseWeekKey(n);
      if n in ws {
        var k :| k in m && ParseWeek(k) == Some(n);
      }
    }
    ws
  }

  /** The week the source falls back to when the exact key is missing: with a target,
      the highest parsed week at or before it, else the highest parsed week overall;
      without a target, the highest parsed week. None when no key parses. */
  function FallbackWeek<V>(m: map<string, V>, target: Option<nat>): (r: Option<nat>)
    ensures r.None? <==> (forall n: nat :: WeekKey(n) !in m)
    ensures r.Some? ==> WeekKey(r.value) in m
    ensures r.Some? && target.Some? && (exists n: nat :: WeekKey(n) in m && n <= target.value) ==>
              r.value <= target.value && forall n: nat :: WeekKey(n) in m && n <= target.value ==> n <= r.value
    ensures r.Some? && (target.None? || forall n: nat :: WeekKey(n) in m ==> n > target.value) ==>
              forall n: nat :: WeekKey(n) in m ==> n <= r.value
  {
    var all := ParsedWeeks(m);
    var below := if target.Some? then (set n | n in all && n <= target.value) else all;
    assert target.Some? ==> forall n: nat :: WeekKey(n) in m && n <= target.value ==> n in below;
    if below != {} then Some(Collections.MaxOf(below))
    else if all != {} then Some(Collections.MaxOf(all))
    else None
  }

  /** pickLineupForWeek: the exact week's lineup, else the lineup of the nearest parsed
      week at or before the target, else the highest-numbered lineup; `fallback` when
      the target week does not parse or no key does. */
  function PickLineupForWeek(lineups: map<string, Lineup>, fallback: Option<Lineup>, week: string): (r: Option<Lineup>)
    ensures week in lineups ==> r == Some(lineups[week])
    ensures week !in lineups && ParseWeek(week).None? ==> r == fallback
    ensures r != fallback ==> exists k :: k in lineups && r == Some(lineups[k])
  {
    if week in lineups then Some(lineups[week])
    else match ParseWeek(week)
      case None => fallback
      case Some(t) =>
        match FallbackWeek(lineups, Some(t))
        case Some(n) => Some(lineups[WeekKey(n)])
        case None => fallback
  }

  /** The order of preference of pickLineupForWeek, case by case. */
  lemma PickLineupOrder(lineups: map<string, Lineup>, fallback: Option<Lineup>, week: string, t: nat)
    requires week !in lineups && ParseWeek(week) == Some(t)
    ensures var r := PickLineupForWeek(lineups, fallback, week);
            // the nearest earlier stored week wins
            forall n: nat ::
              (WeekKey(n) in lineups && n <= t && forall n': nat :: WeekKey(n') in lineups && n' <= t ==> n' <= n) ==>
                r == Some(lineups[WeekKey(n)])
    ensures var r := PickLineupForWeek(lineups, fallback, week);
            // with nothing at or before the target, the highest stored week wins
            forall n: nat ::
              (WeekKey(n) in lineups && forall n': nat :: WeekKey(n') in lineups ==> t < n' <= n) ==>
                r == Some(lineups[WeekKey(n)])
    ensures (forall n: nat :: WeekKey(n) !in lineups) ==> PickLineupForWeek(lineups, fallback, week) == fallback
  {
    var f := FallbackWeek(lineups, Some(t));
    if f.Some? {
      var m := f.value;
      forall n: nat | WeekKey(n) in lineups && n <= t && (forall n': nat :: WeekKey(n') in lineups && n' <= t ==> n' <= n)
        ensures m == n
      {
      }
      forall n: nat | WeekKey(n) in lineups && (forall n': nat :: WeekKey(n') in lineups ==> t < n' <= n)
        ensures m == n
      {
      }
    }
  }

  /** Lineups stored for weeks 1 and 3 only. */
  function TwoWeeks(a: Lineup, b: Lineup): map<string, Lineup>
  {
    map[WeekKey(1) := a, WeekKey(3) := b]
  }

  lemma TwoWeeksKeys(a: Lineup, b: Lineup)
    ensures forall n: nat :: WeekKey(n) in TwoWeeks(a, b) <==> n == 1 || n == 3
  {
    ParseWeekKey(1);
    ParseWeekKey(3);
    forall n: nat ensures WeekKey(n) in TwoWeeks(a, b) <==> n == 1 || n == 3 {
      ParseWeekKey(n);
    }
  }

  /** Stored weeks 1 and 3: week 2 resolves to week 1, the nearest earlier week. */
  lemma PickLineupBetween(a: Lineup, b: Lineup, fallback: Option<Lineup>)
    ensures PickLineupForWeek(TwoWeeks(a, b), fallback, WeekKey(2)) == Some(a)
  {
    TwoWeeksKeys(a, b);
    ParseWeekKey(2);
    PickLineupOrder(TwoWeeks(a, b), fallback, WeekKey(2), 2);
    assert forall n': nat :: WeekKey(n') in TwoWeeks(a, b) && n' <= 2 ==> n' <= 1;
  }

  /** Stored weeks 1 and 3: week 5 resolves to week 3. */
  lemma PickLineupAfter(a: Lineup, b: Lineup, fallback: Option<Lineup>)
    ensures PickLineupForWeek(TwoWeeks(a, b), fallback, WeekKey(5)) == Some(b)
  {
    TwoWeeksKeys(a, b);
    ParseWeekKey(5);
    PickLineupOrder(TwoWeeks(a, b), fallback, WeekKey(5), 5);
    assert forall n': nat :: WeekKey(n') in TwoWeeks(a, b) && n' <= 5 ==> n' <= 3;
  }

  /** Stored weeks 1 and 3: week 0 precedes every stored week and resolves to the highest. */
  lemma PickLineupBefore(a: Lineup, b: Lineup, fallback: Option<Lineup>)
    ensures PickLineupForWeek(TwoWeeks(a, b), fallback, WeekKey(0)) == Some(b)
  {
    TwoWeeksKeys(a, b);
    ParseWeekKey(0);
    PickLineupOrder(TwoWeeks(a, b), fallback, WeekKey(0), 0);
    assert forall n': nat :: WeekKey(n') in TwoWeeks(a, b) ==> 0 < n' <= 3;
  }

  /** The week-sync effect: when the selected week has no lineup, copy in the lineup of
      the nearest earlier (else the highest) stored week; with nothing stored, use the
      default lineup of a non-empty roster. */
  function SyncSelectedWeek(current: map<string, Lineup>, players: seq<Player>, selectedWeek: string): (r: map<string, Lineup>)
    ensures r.Keys <= current.Keys + {selectedWeek}
    ensures forall k :: k in current ==> k in r && r[k] == current[k]
    ensures selectedWeek in r <==>
              selectedWeek in current || (exists n: nat :: WeekKey(n) in current) || (current == map[] && players != [])
  {
    if selectedWeek in current then current
    else if current == map[] then
      if players == [] then current
      else
        DefaultLineupFacts(players);
        var d := DefaultLineup(players);
        if d == map[] then current else current[selectedWeek := d]
    else match FallbackWeek(current, ParseWeek(selectedWeek))
      case None => current
      case Some(n) => current[selectedWeek := current[WeekKey(n)]]
  }

  /** When the selected week parses and some stored key parses, the effect stores under
      that week exactly what pickLineupForWeek resolves (nearest earlier, else highest). */
  lemma SyncAgreesWithPick(current: map<string, Lineup>, players: seq<Player>, w: string, fallback: Option<Lineup>)
    requires ParseWeek(w).Some? && exists n: nat :: WeekKey(n) in current
    ensures var r := SyncSelectedWeek(current, players, w);
            w in r && PickLineupForWeek(current, fallback, w) == Some(r[w])
  {
    var n :| WeekKey(n) in current;
    assert current != map[];
  }

  /** When the selected week is new and does not parse but some stored key does, the
      effect stores the lineup of the highest stored week, where pickLineupForWeek
      would give its fallback instead. */
  lemma SyncUnparsedTakesHighest(current: map<string, Lineup>, players: seq<Player>, w: string, fallback: Option<Lineup>)
    requires w !in current && ParseWeek(w).None? && exists n: nat :: WeekKey(n) in current
    ensures var r := SyncSelectedWeek(current, players, w);
            w in r && PickLineupForWeek(current, fallback, w) == fallback &&
            exists m: nat :: WeekKey(m) in current && r[w] == current[WeekKey(m)] &&
                             forall n: nat :: WeekKey(n) in current ==> n <= m
  {
    var k :| WeekKey(k) in current;
    assert current != map[];
    var m := FallbackWeek(current, None).value;
    assert WeekKey(m) in current && forall n: nat :: WeekKey(n) in current ==> n <= m;
  }

  /** With nothing stored and a non-empty roster, the effect always stores the default
      lineup: the guard against an empty default lineup never fires. */
  lemma SyncFromEmpty(players: seq<Player>, w: string)
    requires players != []
    ensures SyncSelectedWeek(map[], players, w) == map[w := DefaultLineup(players)]
  {
    DefaultLineupFacts(players);
  }

  /** Running the effect again changes nothing. */
  lemma SyncIdempotent(current: map<string, Lineup>, players: seq<Player>, w: string)
    ensures var r := SyncSelectedWeek(current, players, w);
            SyncSelectedWeek(r, players, w) == r
  {
    var r := SyncSelectedWeek(current, players, w);
    if w !in r && r != map[] {
      assert r == current;
    }
  }

  // ---------------------------------------------------------------------------------
  // sumStarterPoints

  /** One slot's contribution: the starter's points for the week, 0 for an empty slot or
      a week the starter has no points for. */
  function SlotPoints(l: Lineup, s: Slot, week: string): real
  {
    if s in l then WeekPoints(l[s], week) else 0.0
  }

  function SumOver(l: Lineup, slots: seq<Slot>, week: string): real
    decreases |slots|
  {
    if slots == [] then 0.0 else SlotPoints(l, slots[0], week) + SumOver(l, slots[1..], week)
  }

  /** sumStarterPoints: 0 for an absent lineup, else the five slots' points for the week. */
  function SumStarterPoints(lineup: Option<Lineup>, week: string): (total: real)
    ensures lineup.None? ==> total == 0.0
    ensures lineup.Some? ==>
              total == SlotPoints(lineup.value, Passing, week) + SlotPoints(lineup.value, Rushing, week) +
                       SlotPoints(lineup.value, Receiving, week) + SlotPoints(lineup.value, Defense, week) +
                       SlotPoints(lineup.value, Kicking, week)
  {
    match lineup
    case None => 0.0
    case Some(l) => SumOver(l, Slots, week)
  }

  /** Emptying one slot lowers the total by exactly that slot's points. */
  lemma SumWithoutSlot(l: Lineup, slot: Slot, week: string)
    ensures SumStarterPoints(Some(l - {slot}), week) == SumStarterPoints(Some(l), week) - SlotPoints(l, slot, week)
  {
    var l' := l - {slot};
    forall s | s != slot ensures SlotPoints(l', s, week) == SlotPoints(l, s, week) {
    }
    match slot
    case Passing =>
    case Rushing =>
    case Receiving =>
    case Defense =>
    case Kicking =>
  }

  /** Putting a player in one slot replaces exactly that slot's points by the player's. */
  lemma SumWithSlot(l: Lineup, slot: Slot, p: Player, week: string)
    ensures SumStarterPoints(Some(l[slot := p]), week) ==
            SumStarterPoints(Some(l), week) - SlotPoints(l, slot, week) + WeekPoints(p, week)
  {
    var l' := l[slot := p];
    forall s | s != slot ensures SlotPoints(l', s, week) == SlotPoints(l, s, week) {
    }
    match slot
    case Passing =>
    case Rushing =>
    case Receiving =>
    case Defense =>
    case Kicking =>
  }

  // ---------------------------------------------------------------------------------
  // currentLineup, bench

  /** `lineupsByWeek[selectedWeek] ?? {}` */
  function CurrentLineup(lineups: map<string, Lineup>, week: string): Lineup
  {
    if week in lineups then lineups[week] else map[]
  }

  /** The starters' ids, leaving out empty ids (`filter(Boolean)`). */
  function StarterIds(l: Lineup): (ids: set<string>)
    ensures forall x :: x in ids <==> x != "" && exists s :: s in l && l[s].id == x
  {
    set s | s in l && l[s].id != "" :: l[s].id
  }

  /** The players, in order, whose id is not in `ids`. */
  function Without(players: seq<Player>, ids: set<string>): (r: seq<Player>)
    ensures |r| <= |players|
    ensures forall p :: p in r <==> p in players && p.id !in ids
    decreases |players|
  {
    if players == [] then []
    else if players[0].id in ids then Without(players[1..], ids)
    else [players[0]] + Without(players[1..], ids)
  }

  /** bench: the roster players, in roster order, that are not starters. */
  function Bench(players: seq<Player>, l: Lineup): (b: seq<Player>)
    ensures |b| <= |players|
    ensures forall p :: p in b <==> p in players && p.id !in StarterIds(l)
  {
    if players == [] then [] else Without(players, StarterIds(l))
  }

  /** The bench keeps roster order: benching a split roster benches each part. */
  lemma {:induction false} WithoutAppend(a: seq<Player>, b: seq<Player>, ids: set<string>)
    ensures Without(a + b, ids) == Without(a, ids) + Without(b, ids)
    decreases |a|
  {
    if a == [] {
      assert a + b == b;
    } else {
      assert (a + b)[0] == a[0];
      assert (a + b)[1..] == a[1..] + b;
      WithoutAppend(a[1..], b, ids);
    }
  }

  lemma BenchAppend(a: seq<Player>, b: seq<Player>, l: Lineup)
    ensures Bench(a + b, l) == Bench(a, l) + Bench(b, l)
  {
    WithoutAppend(a, b, StarterIds(l));
  }

  /** The roster ids split into the first player's id and the rest's ids. */
  lemma RosterIdsSplit(players: seq<Player>)
    requires players != []
    ensures RosterIds(players) == {players[0].id} + RosterIds(players[1..])
  {
    var rest := players[1..];
    forall y | y in RosterIds(players) ensures y in {players[0].id} + RosterIds(rest) {
      var i :| 0 <= i < |players| && players[i].id == y;
      if i > 0 {
        assert rest[i - 1].id == y;
      }
    }
    forall y | y in RosterIds(rest) ensures y in RosterIds(players) {
      var i :| 0 <= i < |rest| && rest[i].id == y;
      assert players[i + 1].id == y;
    }
  }

  /** With distinct ids, the rest has distinct ids and none of them is the first's. */
  lemma DistinctIdsSplit(players: seq<Player>)
    requires players != [] && DistinctIds(players)
    ensures DistinctIds(players[1..])
    ensures players[0].id !in RosterIds(players[1..])
  {
    var rest := players[1..];
    forall i, j | 0 <= i < j < |rest| ensures rest[i].id != rest[j].id {
      assert rest[i] == players[i + 1] && rest[j] == players[j + 1];
    }
    forall i | 0 <= i < |rest| ensures rest[i].id != players[0].id {
      assert rest[i] == players[i + 1];
    }
  }

  /** With distinct roster ids, the bench leaves out one player per roster id in `ids`. */
  lemma {:induction false} WithoutCard(players: seq<Player>, ids: set<string>)
    requires DistinctIds(players)
    ensures |Without(players, ids)| + |ids * RosterIds(players)| == |players|
    decreases |players|
  {
    if players != [] {
      var rest := players[1..];
      var x := players[0].id;
      DistinctIdsSplit(players);
      RosterIdsSplit(players);
      WithoutCard(rest, ids);
      if x in ids {
        assert ids * RosterIds(players) == {x} + ids * RosterIds(rest);
        assert x !in ids * RosterIds(rest);
      } else {
        assert ids * RosterIds(players) == ids * RosterIds(rest);
      }
    }
  }

  /** Taking one slot out of a lineup whose ids are pairwise different removes exactly
      that starter's id. */
  lemma IdsOfRemove(l: Lineup, s: Slot)
    requires s in l
    requires forall a, b :: a in l && b in l && a != b ==> l[a].id != l[b].id
    ensures IdsOf(l) == IdsOf(l - {s}) + {l[s].id}
    ensures l[s].id !in IdsOf(l - {s})
  {
    var rest := l - {s};
    IdsOfAdd(rest, s, l[s]);
    Collections.MapExtensional(rest[s := l[s]], l);
    forall x | x in IdsOf(rest) ensures x != l[s].id {
      var t :| t in rest && rest[t].id == x;
      assert t in l && t != s;
    }
  }

  /** A lineup whose starters have pairwise different ids has as many ids as starters. */
  lemma {:induction false} IdsOfCard(l: Lineup)
    requires forall s, t :: s in l && t in l && s != t ==> l[s].id != l[t].id
    ensures |IdsOf(l)| == |l|
    decreases |l|
  {
    if l != map[] {
      var s :| s in l;
      var rest := l - {s};
      assert |IdsOf(l)| == |IdsOf(rest)| + 1 by {
        IdsOfRemove(l, s);
      }
      assert |l| == |rest| + 1 by {
        assert l.Keys == rest.Keys + {s} && s !in rest.Keys;
        assert |l.Keys| == |rest.Keys| + 1;
      }
      assert forall a, b :: a in rest && b in rest && a != b ==> rest[a].id != rest[b].id;
      IdsOfCard(rest);
    }
  }

  /** With distinct, non-empty roster ids and a lineup drawn from the roster that uses
      each player once, every player is either a starter or on the bench, never both. */
  lemma BenchSize(players: seq<Player>, l: Lineup)
    requires DistinctIds(players) && forall i :: 0 <= i < |players| ==> players[i].id != ""
    requires forall s :: s in l ==> l[s] in players
    requires forall s, t :: s in l && t in l && s != t ==> l[s].id != l[t].id
    ensures |Bench(players, l)| + |l| == |players|
  {
    IdsOfCard(l);
    assert StarterIds(l) == IdsOf(l) by {
      forall x | x in IdsOf(l) ensures x in StarterIds(l) {
        var s :| s in l && l[s].id == x;
        var i :| 0 <= i < |players| && players[i] == l[s];
      }
    }
    assert StarterIds(l) * RosterIds(players) == StarterIds(l) by {
      forall x | x in StarterIds(l) ensures x in RosterIds(players) {
        var s :| s in l && l[s].id == x;
        var i :| 0 <= i < |players| && players[i] == l[s];
      }
    }
    if players != [] {
      WithoutCard(players, StarterIds(l));
    }
  }

  /** The default lineup of a roster with distinct, non-empty ids leaves
      |roster| - min(5, |roster|) players on the bench. */
  lemma DefaultBenchSize(roster: seq<Player>)
    requires DistinctIds(roster) && forall i :: 0 <= i < |roster| ==> roster[i].id != ""
    ensures |Bench(roster, DefaultLineup(roster))| == if |roster| < 5 then 0 else |roster| - 5
  {
    DefaultLineupFacts(roster);
    BenchSize(roster, DefaultLineup(roster));
  }

  // ---------------------------------------------------------------------------------
  // moveToBench, moveToLineup

  /** moveToBench: empty one slot of the selected week's lineup; nothing changes when
      that slot is already empty. */
  function MoveToBench(current: map<string, Lineup>, week: string, slot: Slot): (r: map<string, Lineup>)
    ensures slot !in CurrentLineup(current, week) ==> r == current
    ensures slot in CurrentLineup(current, week) ==>
              r.Keys == current.Keys &&
              r[week].Keys == current[week].Keys - {slot} &&
              forall s :: s in r[week] ==> r[week][s] == current[week][s]
    ensures forall w :: w != week && w in current ==> w in r && r[w] == current[w]
  {
    var existing := CurrentLineup(current, week);
    if slot !in existing then current
    else current[week := existing - {slot}]
  }

  /** moveToLineup: put the player into the slot of its own position in the selected
      week's lineup, replacing whoever held it; a player without a position changes
      nothing. */
  function MoveToLineup(current: map<string, Lineup>, week: string, p: Player): (r: map<string, Lineup>)
    ensures p.position.None? ==> r == current
    ensures p.position.Some? ==>
              var slot := p.position.value;
              r.Keys == current.Keys + {week} &&
              r[week].Keys == CurrentLineup(current, week).Keys + {slot} &&
              r[week][slot] == p &&
              forall s :: s in r[week] && s != slot ==> r[week][s] == current[week][s]
    ensures forall w :: w != week && w in current ==> w in r && r[w] == current[w]
  {
    match p.position
    case None => current
    case Some(slot) => current[week := CurrentLineup(current, week)[slot := p]]
  }

  /** Benching a starter who plays its own slot and moving it back restores the state. */
  lemma BenchThenLineup(current: map<string, Lineup>, week: string, slot: Slot)
    requires slot in CurrentLineup(current, week)
    requires current[week][slot].position == Some(slot)
    ensures MoveToLineup(MoveToBench(current, week, slot), week, current[week][slot]) == current
  {
    var p := current[week][slot];
    var r := MoveToLineup(MoveToBench(current, week, slot), week, p);
    Collections.MapExtensional(r[week], current[week]);
    Collections.MapExtensional(r, current);
  }

  /** Moving a player into an empty slot of a stored week and benching it again restores
      the state. */
  lemma LineupThenBench(current: map<string, Lineup>, week: string, p: Player)
    requires week in current && p.position.Some? && p.position.value !in current[week]
    ensures MoveToBench(MoveToLineup(current, week, p), week, p.position.value) == current
  {
    var r := MoveToBench(MoveToLineup(current, week, p), week, p.position.value);
    Collections.MapExtensional(r[week], current[week]);
    Collections.MapExtensional(r, current);
  }

  /** Benching lowers the week's starter total by exactly the benched player's points. */
  lemma MoveToBenchPoints(current: map<string, Lineup>, week: string, slot: Slot)
    ensures SumStarterPoints(Some(CurrentLineup(MoveToBench(current, week, slot), week)), week) ==
            SumStarterPoints(Some(CurrentLineup(current, week)), week) - SlotPoints(CurrentLineup(current, week), slot, week)
  {
    var existing := CurrentLineup(current, week);
    SumWithoutSlot(existing, slot, week);
    if slot !in existing {
      assert existing - {slot} == existing;
    }
  }

  /** Moving a player in replaces the slot's points by the player's. */
  lemma MoveToLineupPoints(current: map<string, Lineup>, week: string, p: Player)
    requires p.position.Some?
    ensures SumStarterPoints(Some(CurrentLineup(MoveToLineup(current, week, p), week)), week) ==
            SumStarterPoints(Some(CurrentLineup(current, week)), week)
              - SlotPoints(CurrentLineup(current, week), p.position.value, week) + WeekPoints(p, week)
  {
    SumWithSlot(CurrentLineup(current, week), p.position.value, p, week);
  }

  /** A benched starter whose id no other slot holds shows up on the bench. */
  lemma MoveToBenchFreesPlayer(current: map<string, Lineup>, week: string, slot: Slot, players: seq<Player>)
    requires slot in CurrentLineup(current, week) && current[week][slot] in players
    requires forall s :: s in current[week] && s != slot ==> current[week][s].id != current[week][slot].id
    ensures current[week][slot] in Bench(players, CurrentLineup(MoveToBench(current, week, slot), week))
  {
    var q := current[week][slot];
    var after := CurrentLineup(MoveToBench(current, week, slot), week);
    assert q.id !in StarterIds(after);
  }

  /** A player moved into the lineup leaves the bench (when its id is not empty). */
  lemma MoveToLineupLeavesBench(current: map<string, Lineup>, week: string, p: Player, players: seq<Player>)
    requires p.position.Some? && p.id != ""
    ensures p !in Bench(players, CurrentLineup(MoveToLineup(current, week, p), week))
  {
    var after := CurrentLineup(MoveToLineup(current, week, p), week);
    assert after[p.position.value].id == p.id;
  }

  // ---------------------------------------------------------------------------------
  // Lineups after loading the team

  /** The lineups the page starts from: the server's per-week lineups; when there are
      none, the legacy single lineup under the current week if it fills any slot; when
      that is empty too, the default lineup of a non-empty roster under the current week. */
  function InitialLineups(team: Team, roster: seq<Player>, currentWeek: string): (r: map<string, Lineup>)
    ensures |MapServerLineups(team.lineups, roster)| > 0 ==> r == MapServerLineups(team.lineups, roster)
    ensures |MapServerLineups(team.lineups, roster)| == 0 && |ServerLineup(team.lineup, roster)| > 0 ==>
              r == map[currentWeek := ServerLineup(team.lineup, roster)]
    ensures |MapServerLineups(team.lineups, roster)| == 0 && |ServerLineup(team.lineup, roster)| == 0 ==>
              (roster == [] ==> |r| == 0) && (roster != [] ==> r == map[currentWeek := DefaultLineup(roster)] && |r[currentWeek]| > 0)
  {
    var mapped := MapServerLineups(team.lineups, roster);
    var legacy := ServerLineup(team.lineup, roster);
    if |mapped| > 0 then mapped
    else if |legacy| > 0 then map[currentWeek := legacy]
    else if roster != [] then
      DefaultLineupFacts(roster);
      map[currentWeek := DefaultLineup(roster)]
    else mapped
  }
}
