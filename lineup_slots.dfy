/** The closed vocabulary of lineup slots (src/constants/lineup.ts). */
module LineupSlots {
  import opened Wrappers
  import Collections

  datatype Slot = Passing | Rushing | Receiving | Defense | Kicking

  /** LINEUP_SLOTS: every slot, in the canonical order the pages iterate them. */
  const Slots: seq<Slot> := [Passing, Rushing, Receiving, Defense, Kicking]

  /** The same five slots as a set. */
  const AllSlots: set<Slot> := {Passing, Rushing, Receiving, Defense, Kicking}

  /** The string a slot is stored and transmitted as. */
  function Name(s: Slot): string
  {
    match s
    case Passing => "Passing"
    case Rushing => "Rushing"
    case Receiving => "Receiving"
    case Defense => "Defense"
    case Kicking => "Kicking"
  }

  /** LINEUP_SLOTS as the array of strings the source declares. */
  function SlotNames(): (names: seq<string>)
    ensures |names| == |Slots|
    ensures forall i :: 0 <= i < |Slots| ==> names[i] == Name(Slots[i])
  {
    [Name(Passing), Name(Rushing), Name(Receiving), Name(Defense), Name(Kicking)]
  }

  /** Position of a slot in LINEUP_SLOTS. */
  function SlotIndex(s: Slot): (i: nat)
    ensures i < |Slots| && Slots[i] == s
  {
    match s
    case Passing => 0
    case Rushing => 1
    case Receiving => 2
    case Defense => 3
    case Kicking => 4
  }

  /** The slot a name stands for, if any (matching is exact and case-sensitive). */
  function SlotOf(name: string): (r: Option<Slot>)
    ensures r.Some? ==> Name(r.value) == name
    ensures r.None? ==> forall s: Slot :: Name(s) != name
  {
    if name == "Passing" then Some(Passing)
    else if name == "Rushing" then Some(Rushing)
    else if name == "Receiving" then Some(Receiving)
    else if name == "Defense" then Some(Defense)
    else if name == "Kicking" then Some(Kicking)
    else None
  }

  /** The five slots are distinct, LINEUP_SLOTS lists each exactly once and AllSlots has
      exactly five members. */
  lemma SlotsAreExact()
    ensures forall i, j :: 0 <= i < j < |Slots| ==> Slots[i] != Slots[j]
    ensures forall s: Slot :: s in AllSlots && SlotIndex(s) < |Slots|
    ensures |AllSlots| == 5
    ensures SlotNames() == ["Passing", "Rushing", "Receiving", "Defense", "Kicking"]
  {
    forall s: Slot ensures s in AllSlots {
      match s
      case Passing =>
      case Rushing =>
      case Receiving =>
      case Defense =>
      case Kicking =>
    }
    assert AllSlots == {Passing, Rushing, Receiving, Defense} + {Kicking};
    assert |{Passing, Rushing, Receiving, Defense}| == 4 by {
      assert {Passing, Rushing, Receiving, Defense} == {Passing, Rushing, Receiving} + {Defense};
      assert |{Passing, Rushing, Receiving}| == 3 by {
        assert {Passing, Rushing, Receiving} == {Passing, Rushing} + {Receiving};
      }
    }
  }

  /** Distinct slots have distinct names. */
  lemma NameInjective(a: Slot, b: Slot)
    ensures Name(a) == Name(b) ==> a == b
  {
    if a != b {
      assert Name(a)[..2] != Name(b)[..2] || Name(a) != Name(b);
    }
  }

  /** Every map keyed by slots has at most five entries, and exactly five when every
      slot is a key. */
  lemma SlotMapSize<V>(m: map<Slot, V>)
    ensures |m| <= 5
    ensures (forall s: Slot :: s in m) ==> |m| == 5
  {
    SlotsAreExact();
    assert m.Keys <= AllSlots;
    Collections.SubsetCard(m.Keys, AllSlots);
    if forall s: Slot :: s in m {
      assert m.Keys == AllSlots;
    }
  }

  /** A JavaScript value as isLineupSlot sees it: a string or anything else. */
  datatype JsValue = JsString(str: string) | JsNonString

  /** isLineupSlot: the value is a string equal to one of the five slot names. */
  predicate IsLineupSlot(v: JsValue)
  {
    v.JsString? && v.str in SlotNames()
  }

  /** isLineupSlot holds exactly for the strings that name a slot. */
  lemma {:induction false} IsLineupSlotIffName(v: JsValue)
    ensures IsLineupSlot(v) <==> v.JsString? && SlotOf(v.str).Some?
    ensures IsLineupSlot(v) ==> v == JsString(Name(SlotOf(v.str).value))
  {
    if v.JsString? && v.str in SlotNames() {
      var i :| 0 <= i < |SlotNames()| && SlotNames()[i] == v.str;
      assert v.str == Name(Slots[i]);
    }
  }

  /** Slot names are case-sensitive: the lower-case spellings are not slots. */
  lemma SlotMatchIsCaseSensitive()
    ensures !IsLineupSlot(JsString("passing"))
    ensures !IsLineupSlot(JsString("KICKING"))
    ensures !IsLineupSlot(JsNonString)
    ensures IsLineupSlot(JsString("Passing"))
  {
    SlotsAreExact();
  }

  /** normalizeLineupSlot: the value itself when it names a slot, otherwise undefined. */
  function NormalizeLineupSlot(v: JsValue): (r: Option<string>)
    ensures r.Some? <==> IsLineupSlot(v)
    ensures r.Some? ==> v == JsString(r.value) && SlotOf(r.value).Some?
  {
    IsLineupSlotIffName(v);
    if IsLineupSlot(v) then Some(v.str) else None
  }

  /** Normalising an already normalised value changes nothing. */
  lemma NormalizeIdempotent(v: JsValue)
    ensures var r := NormalizeLineupSlot(v);
            r.Some? ==> NormalizeLineupSlot(JsString(r.value)) == r
  {
  }
}
