/**
 * What one run of `updateUI` does to the three effect slots, as functions
 * of the catalog, the slots before the run and the other controls: the
 * taken and blocked sets, the gated candidate lists, the clearing
 * cascade, the relic stage and the slot that shows the available count.
 */
module Selection {
  import opened Text
  import opened Catalog
  import opened Filters

  /** The values of the three effect selects; "" is an empty slot. */
  datatype Slots = Slots(s1: string, s2: string, s3: string)

  /** The other controls `updateUI` reads: relic type, the three category
      selects and the "show illegal" checkbox. */
  datatype View = View(relicType: string, cat1: string, cat2: string, cat3: string, showIllegal: bool)

  /** `new Set([x, y].filter(Boolean).map(String))` */
  function TakenIds(x: string, y: string): set<string> {
    (if x != "" then {x} else {}) + (if y != "" then {y} else {})
  }

  /** `takenFor2`: the ids in slots 1 and 3. */
  function TakenFor2(prior: Slots): set<string> {
    TakenIds(prior.s1, prior.s3)
  }

  /** `takenFor3`: the ids in slots 1 and 2. */
  function TakenFor3(prior: Slots): set<string> {
    TakenIds(prior.s1, prior.s2)
  }

  /** The compatibility group of the row a slot value names; "" when the
      value names no row or the row has no group. */
  function CompatOf(c: Catalog, id: string): string {
    match GetRow(c, id)
    case Some(row) => CompatId(row)
    case None => ""
  }

  /** `blockedFor2`: the group of slot 1's row, if it has one. */
  function BlockedFor2(c: Catalog, prior: Slots): set<string> {
    {CompatOf(c, prior.s1)} - {""}
  }

  /** `blockedFor3`: the groups of slot 1's and slot 2's rows. */
  function BlockedFor3(c: Catalog, prior: Slots): set<string> {
    {CompatOf(c, prior.s1), CompatOf(c, prior.s2)} - {""}
  }

  /** `filtered1`: slot 1 offers the relic-type pool in its category. */
  function Filtered1(c: Catalog, v: View): seq<Row> {
    ApplyCategory(BaseFilteredByRelicType(c.rows, v.relicType), v.cat1)
  }

  /** `eligible2`: nothing until slot 1 names a row. */
  function Eligible2(c: Catalog, prior: Slots, v: View): seq<Row> {
    if GetRow(c, prior.s1).Some? then
      EligibleList(c.rows, v.relicType, BlockedFor2(c, prior), TakenFor2(prior), v.showIllegal)
    else []
  }

  function Filtered2(c: Catalog, prior: Slots, v: View): seq<Row> {
    ApplyCategory(Eligible2(c, prior, v), v.cat2)
  }

  /** `eligible3`: nothing until slots 1 and 2 both name rows. */
  function Eligible3(c: Catalog, prior: Slots, v: View): seq<Row> {
    if GetRow(c, prior.s1).Some? && GetRow(c, prior.s2).Some? then
      EligibleList(c.rows, v.relicType, BlockedFor3(c, prior), TakenFor3(prior), v.showIllegal)
    else []
  }

  function Filtered3(c: Catalog, prior: Slots, v: View): seq<Row> {
    ApplyCategory(Eligible3(c, prior, v), v.cat3)
  }

  /** The values of a select after `fillSelect(sel, list, …)`: the
      placeholder "" followed by each row's id. */
  function OptionValues(list: seq<Row>): (r: seq<string>)
    ensures |r| == |list| + 1
    ensures forall id {:trigger id in r} :: id in r <==> id == "" || id in Ids(list)
  {
    [""] + Ids(list)
  }

  /** Slot 1 after `updateUI`: its old value if slot 1 still offers it,
      else empty (and then slots 2 and 3 are emptied too). */
  function Kept1(c: Catalog, prior: Slots, v: View): string {
    if prior.s1 in OptionValues(Filtered1(c, v)) then prior.s1 else ""
  }

  /** Slot 2 after `updateUI`: its old value if slot 1 now names a row and
      slot 2 still offers the value, else empty. */
  function Kept2(c: Catalog, prior: Slots, v: View): string {
    if GetRow(c, Kept1(c, prior, v)).Some? && prior.s2 in OptionValues(Filtered2(c, prior, v)) then prior.s2 else ""
  }

  /** Slot 3 after `updateUI`: its old value if slots 1 and 2 now name rows
      and slot 3 still offers the value, else empty. */
  function Kept3(c: Catalog, prior: Slots, v: View): string {
    if && GetRow(c, Kept1(c, prior, v)).Some?
       && GetRow(c, Kept2(c, prior, v)).Some?
       && prior.s3 in OptionValues(Filtered3(c, prior, v))
    then prior.s3 else ""
  }

  /** The slots after `updateUI`. */
  function Refreshed(c: Catalog, prior: Slots, v: View): Slots {
    Slots(Kept1(c, prior, v), Kept2(c, prior, v), Kept3(c, prior, v))
  }

  /** `stage`: 3 when slot 3 names a row, else 2 when slot 2 does, else 1
      when slot 1 does, else 0. */
  function Stage(c: Catalog, sel: Slots): nat {
    if GetRow(c, sel.s3).Some? then 3
    else if GetRow(c, sel.s2).Some? then 2
    else if GetRow(c, sel.s1).Some? then 1
    else 0
  }

  /** The slot whose count `updateUI` shows, read from the slots after the
      cascade: the first slot that names no row, or slot 3. */
  function ActiveSlot(c: Catalog, sel: Slots): nat {
    if GetRow(c, sel.s1).None? then 1
    else if GetRow(c, sel.s2).None? then 2
    else 3
  }

  /** The count `updateUI` passes to `updateCounts`: the length of the
      active slot's filtered list. */
  function AvailableCount(c: Catalog, prior: Slots, v: View): nat {
    var active := ActiveSlot(c, Refreshed(c, prior, v));
    if active == 1 then |Filtered1(c, v)|
    else if active == 2 then |Filtered2(c, prior, v)|
    else |Filtered3(c, prior, v)|
  }

  function FilledCount(sel: Slots): nat {
    (if sel.s1 != "" then 1 else 0) + (if sel.s2 != "" then 1 else 0) + (if sel.s3 != "" then 1 else 0)
  }

  /** A selection the page can show: slots fill left to right, every filled
      slot names a catalog row, and no effect is picked twice. */
  predicate WellFormed(c: Catalog, sel: Slots) {
    && (sel.s2 != "" ==> sel.s1 != "")
    && (sel.s3 != "" ==> sel.s2 != "")
    && (sel.s1 != "" ==> GetRow(c, sel.s1).Some?)
    && (sel.s2 != "" ==> GetRow(c, sel.s2).Some?)
    && (sel.s3 != "" ==> GetRow(c, sel.s3).Some?)
    && (sel.s2 != "" ==> sel.s1 != sel.s2)
    && (sel.s3 != "" ==> sel.s1 != sel.s3 && sel.s2 != sel.s3)
  }

  /** Two slots collide when their rows share a non-empty group. */
  predicate Clash(cid: string, cid': string) {
    cid != "" && cid == cid'
  }

  predicate CompatDisjoint(c: Catalog, sel: Slots) {
    && !Clash(CompatOf(c, sel.s1), CompatOf(c, sel.s2))
    && !Clash(CompatOf(c, sel.s1), CompatOf(c, sel.s3))
    && !Clash(CompatOf(c, sel.s2), CompatOf(c, sel.s3))
  }

  // ---------------------------------------------------------------------
  // Lemmas

  /** A non-empty value a select offers is the id of a row of its list. */
  lemma OfferedInList(list: seq<Row>, id: string) returns (x: Row)
    requires id != "" && id in OptionValues(list)
    ensures x in list && x.EffectID == id
  {
    var i :| 0 <= i < |list| && Ids(list)[i] == id;
    x := list[i];
  }

  /** A non-empty value a select filled from catalog rows offers names a
      row the lookup finds. */
  lemma OfferedId(c: Catalog, list: seq<Row>, id: string) returns (x: Row)
    requires c.Indexed()
    requires forall y :: y in list ==> y in c.rows
    requires id != "" && id in OptionValues(list)
    ensures x in list && x.EffectID == id && GetRow(c, id).Some?
  {
    x := OfferedInList(list, id);
    GetRowSound(c, id);
  }

  /** With unique ids, the row the lookup finds is the row the select
      offered. */
  lemma OfferedRow(c: Catalog, list: seq<Row>, id: string) returns (x: Row)
    requires c.Keyed()
    requires forall y :: y in list ==> y in c.rows
    requires id != "" && id in OptionValues(list)
    ensures x in list && x.EffectID == id && GetRow(c, id) == Some(x)
  {
    x := OfferedInList(list, id);
    GetRowFindsRow(c, x);
  }

  /** Slot 2's taken set is the filled slots 1 and 3, slot 3's the filled
      slots 1 and 2: neither is built from the slot's own value. */
  lemma TakenFromOtherSlots(prior: Slots)
    ensures forall id :: id in TakenFor2(prior) <==> id != "" && (id == prior.s1 || id == prior.s3)
    ensures forall id :: id in TakenFor3(prior) <==> id != "" && (id == prior.s1 || id == prior.s2)
  {
  }

  /** When the slots hold distinct ids, a slot's own value is never taken
      from it. */
  lemma OwnValueNotTaken(prior: Slots)
    requires prior.s2 != "" ==> prior.s2 != prior.s1 && prior.s2 != prior.s3
    requires prior.s3 != "" ==> prior.s3 != prior.s1 && prior.s3 != prior.s2
    ensures prior.s2 !in TakenFor2(prior)
    ensures prior.s3 !in TakenFor3(prior)
  {
    TakenFromOtherSlots(prior);
  }

  /** Slot 1 offers its list whatever the other slots hold, so slot 1 can
      be switched to the effect slot 2 or slot 3 holds. The repeated effect
      is then taken from the later slot, and the run empties that slot. */
  lemma RepeatedPickCleared(c: Catalog, prior: Slots, v: View)
    ensures prior.s2 == prior.s1 ==> Kept2(c, prior, v) == ""
    ensures prior.s3 == prior.s1 || prior.s3 == prior.s2 ==> Kept3(c, prior, v) == ""
  {
    if prior.s2 == prior.s1 && Kept2(c, prior, v) != "" {
      var _ := OfferedInList(Filtered2(c, prior, v), prior.s2);
    }
    if (prior.s3 == prior.s1 || prior.s3 == prior.s2) && Kept3(c, prior, v) != "" {
      var _ := OfferedInList(Filtered3(c, prior, v), prior.s3);
    }
  }

  /** The blocked sets hold only the non-empty groups of the slots to the
      left. */
  lemma BlockedSetsFromLeftSlots(c: Catalog, prior: Slots)
    requires c.Named()
    ensures forall cid :: cid in BlockedFor2(c, prior) <==>
      cid != "" && prior.s1 != "" && cid == CompatOf(c, prior.s1)
    ensures forall cid :: cid in BlockedFor3(c, prior) <==>
      cid != "" && ((prior.s1 != "" && cid == CompatOf(c, prior.s1)) || (prior.s2 != "" && cid == CompatOf(c, prior.s2)))
  {
    GetRowBlank(c);
  }

  /** Slot gating: slot 2 offers nothing while slot 1 is empty, slot 3
      nothing unless slots 1 and 2 are both filled. */
  lemma SlotGating(c: Catalog, prior: Slots, v: View)
    requires c.Named()
    ensures prior.s1 == "" ==> Filtered2(c, prior, v) == []
    ensures prior.s1 == "" || prior.s2 == "" ==> Filtered3(c, prior, v) == []
  {
    GetRowBlank(c);
  }

  /** The cascade from slot 1: losing slot 1 empties every slot, and
      otherwise slot 1 is unchanged. */
  lemma CascadeFromSlot1(c: Catalog, prior: Slots, v: View)
    requires c.Named()
    ensures prior.s1 !in OptionValues(Filtered1(c, v)) ==> Refreshed(c, prior, v) == Slots("", "", "")
    ensures prior.s1 in OptionValues(Filtered1(c, v)) ==> Refreshed(c, prior, v).s1 == prior.s1
  {
    GetRowBlank(c);
  }

  /** Clearing slot 1 clears slots 2 and 3 on the next refresh. */
  lemma ClearingSlot1ClearsAll(c: Catalog, s2: string, s3: string, v: View)
    requires c.Named()
    ensures Refreshed(c, Slots("", s2, s3), v) == Slots("", "", "")
  {
    GetRowBlank(c);
  }

  /** Slots 2 and 3 keep their old value exactly when the slots to their
      left are filled and the slot still offers that value; otherwise they
      are emptied. */
  lemma KeepOnlyIfOffered(c: Catalog, prior: Slots, v: View)
    requires c.Named()
    ensures var r := Refreshed(c, prior, v);
      && r.s2 == (if r.s1 != "" && prior.s2 in OptionValues(Filtered2(c, prior, v)) then prior.s2 else "")
      && r.s3 == (if r.s1 != "" && r.s2 != "" && prior.s3 in OptionValues(Filtered3(c, prior, v)) then prior.s3 else "")
  {
    GetRowBlank(c);
    var r := Refreshed(c, prior, v);
    if r.s1 != "" {
      var _ := OfferedId(c, Filtered1(c, v), r.s1);
    }
    if r.s2 != "" {
      var _ := OfferedId(c, Filtered2(c, prior, v), r.s2);
    }
  }

  /** After a refresh the slots fill left to right, name catalog rows and
      hold distinct effects. */
  lemma RefreshedWellFormed(c: Catalog, prior: Slots, v: View)
    requires c.Named()
    ensures WellFormed(c, Refreshed(c, prior, v))
  {
    GetRowBlank(c);
    var r := Refreshed(c, prior, v);
    if r.s1 != "" {
      var _ := OfferedId(c, Filtered1(c, v), r.s1);
    }
    if r.s2 != "" {
      assert r.s1 == prior.s1 && GetRow(c, prior.s1).Some?;
      var x := OfferedId(c, Filtered2(c, prior, v), r.s2);
      assert x.EffectID !in TakenFor2(prior);
    }
    if r.s3 != "" {
      assert r.s1 == prior.s1 && r.s2 == prior.s2;
      var x := OfferedId(c, Filtered3(c, prior, v), r.s3);
      assert x.EffectID !in TakenFor3(prior);
    }
  }

  /** The id of a row of a list is among the values its select offers. */
  lemma IdOffered(list: seq<Row>, x: Row)
    requires x in list
    ensures x.EffectID in OptionValues(list)
  {
    var i :| 0 <= i < |list| && list[i] == x;
    assert Ids(list)[i] == x.EffectID;
  }

  /** A filled slot 2 after a refresh holds its old value, kept because
      slot 1 kept its row and slot 2 still offered the value. */
  lemma Kept2Filled(c: Catalog, prior: Slots, v: View)
    requires c.Named() && Kept2(c, prior, v) != ""
    ensures prior.s1 != "" && Kept1(c, prior, v) == prior.s1 && GetRow(c, prior.s1).Some?
    ensures Kept2(c, prior, v) == prior.s2 && prior.s2 in OptionValues(Filtered2(c, prior, v))
  {
    GetRowBlank(c);
  }

  /** A filled slot 3 after a refresh holds its old value, kept because
      slots 1 and 2 kept their rows and slot 3 still offered the value. */
  lemma Kept3Filled(c: Catalog, prior: Slots, v: View)
    requires c.Named() && Kept3(c, prior, v) != ""
    ensures prior.s1 != "" && Kept1(c, prior, v) == prior.s1 && GetRow(c, prior.s1).Some?
    ensures prior.s2 != "" && Kept2(c, prior, v) == prior.s2 && GetRow(c, prior.s2).Some?
    ensures Kept3(c, prior, v) == prior.s3 && prior.s3 in OptionValues(Filtered3(c, prior, v))
  {
    GetRowBlank(c);
  }

  /** The row behind a filled slot 2 after a refresh: a row slot 2 offered. */
  lemma Slot2Row(c: Catalog, prior: Slots, v: View) returns (x: Row)
    requires c.Keyed() && Kept2(c, prior, v) != ""
    ensures x in Filtered2(c, prior, v) && x.EffectID == prior.s2 && GetRow(c, prior.s2) == Some(x)
  {
    Kept2Filled(c, prior, v);
    x := OfferedRow(c, Filtered2(c, prior, v), prior.s2);
  }

  /** The row behind a filled slot 3 after a refresh: a row slot 3 offered. */
  lemma Slot3Row(c: Catalog, prior: Slots, v: View) returns (x: Row)
    requires c.Keyed() && Kept3(c, prior, v) != ""
    ensures x in Filtered3(c, prior, v) && x.EffectID == prior.s3 && GetRow(c, prior.s3) == Some(x)
  {
    Kept3Filled(c, prior, v);
    x := OfferedRow(c, Filtered3(c, prior, v), prior.s3);
  }

  /** With the override off, slot 2 offers no row in slot 1's group. */
  lemma Eligible2NoClash(c: Catalog, prior: Slots, v: View, x: Row)
    requires !v.showIllegal && x in Eligible2(c, prior, v)
    ensures !Clash(CompatOf(c, prior.s1), CompatId(x))
  {
    var k1 := CompatOf(c, prior.s1);
    assert k1 != "" ==> k1 in BlockedFor2(c, prior);
  }

  /** With the override off, slot 3 offers no row in slot 1's or slot 2's
      group. */
  lemma Eligible3NoClash(c: Catalog, prior: Slots, v: View, x: Row)
    requires !v.showIllegal && x in Eligible3(c, prior, v)
    ensures !Clash(CompatOf(c, prior.s1), CompatId(x)) && !Clash(CompatOf(c, prior.s2), CompatId(x))
  {
    var k1, k2 := CompatOf(c, prior.s1), CompatOf(c, prior.s2);
    assert k1 != "" ==> k1 in BlockedFor3(c, prior);
    assert k2 != "" ==> k2 in BlockedFor3(c, prior);
  }

  /** With the override off, no two slots of a refreshed selection share a
      non-empty compatibility group. */
  lemma RefreshedCompatDisjoint(c: Catalog, prior: Slots, v: View)
    requires c.Keyed() && !v.showIllegal
    ensures CompatDisjoint(c, Refreshed(c, prior, v))
  {
    GetRowBlank(c);
    var r := Refreshed(c, prior, v);
    if r.s2 != "" {
      Kept2Filled(c, prior, v);
      var x := Slot2Row(c, prior, v);
      Eligible2NoClash(c, prior, v, x);
    }
    if r.s3 != "" {
      Kept3Filled(c, prior, v);
      var x := Slot3Row(c, prior, v);
      Eligible3NoClash(c, prior, v, x);
    }
  }

  /** Emptying slot 3 blocks the same groups for slot 2 and takes away no
      more ids from it. */
  lemma Slot2LessTaken(c: Catalog, prior: Slots, r: Slots)
    requires r.s1 == prior.s1 && (r.s3 == prior.s3 || r.s3 == "")
    ensures BlockedFor2(c, r) == BlockedFor2(c, prior)
    ensures TakenFor2(r) <= TakenFor2(prior)
  {
  }

  /** Slot 2's kept value stays on offer when slot 1 is unchanged and
      slot 3 keeps its value or is emptied, as on a repeated refresh. */
  lemma Slot2StaysOffered(c: Catalog, prior: Slots, r: Slots, v: View)
    requires c.Named() && Kept2(c, prior, v) != ""
    requires r.s1 == prior.s1 && (r.s3 == prior.s3 || r.s3 == "")
    ensures prior.s2 in OptionValues(Filtered2(c, r, v))
  {
    Kept2Filled(c, prior, v);
    var x := OfferedInList(Filtered2(c, prior, v), prior.s2);
    Slot2LessTaken(c, prior, r);
    EligibleAntitone(c.rows, v.relicType, BlockedFor2(c, prior), TakenFor2(prior),
                     BlockedFor2(c, r), TakenFor2(r), v.showIllegal, x);
    assert x in Eligible2(c, r, v);
    ApplyCategoryKeeps(Eligible2(c, prior, v), Eligible2(c, r, v), v.cat2, x);
    IdOffered(Filtered2(c, r, v), x);
  }

  /** A refresh with unchanged controls changes nothing more: the
      selection it produces is a fixed point. */
  lemma RefreshedIdempotent(c: Catalog, prior: Slots, v: View)
    requires c.Named()
    ensures Refreshed(c, Refreshed(c, prior, v), v) == Refreshed(c, prior, v)
  {
    GetRowBlank(c);
    var r := Refreshed(c, prior, v);
    var r' := Refreshed(c, r, v);
    assert r'.s1 == r.s1;
    if r.s2 != "" {
      Kept2Filled(c, prior, v);
      Slot2StaysOffered(c, prior, r, v);
    }
    assert r'.s2 == r.s2;
    if r.s3 != "" {
      assert r.s1 == prior.s1 && r.s2 == prior.s2;
      assert Filtered3(c, r, v) == Filtered3(c, prior, v);
    }
    assert r'.s3 == r.s3;
  }

  /** A slot locked during a refresh ends it empty: slot 2 is locked when
      slot 1 named no row before the refresh, slot 3 also when slot 2
      named none. */
  lemma LockedSlotsEmpty(c: Catalog, prior: Slots, v: View)
    requires c.Named()
    ensures GetRow(c, prior.s1).None? ==> Kept2(c, prior, v) == "" && Kept3(c, prior, v) == ""
    ensures GetRow(c, prior.s2).None? ==> Kept3(c, prior, v) == ""
  {
    GetRowBlank(c);
    if GetRow(c, prior.s1).None? && prior.s1 != "" && prior.s1 in OptionValues(Filtered1(c, v)) {
      var _ := OfferedId(c, Filtered1(c, v), prior.s1);
    }
  }

  /** On a well-formed selection the stage is the number of filled slots. */
  lemma StageCountsFilled(c: Catalog, sel: Slots)
    requires c.Named() && WellFormed(c, sel)
    ensures Stage(c, sel) == FilledCount(sel)
  {
    GetRowBlank(c);
  }

  /** The slot showing the count is the first empty slot after the
      refresh, or slot 3 when all are filled. */
  lemma ActiveSlotIsFirstEmpty(c: Catalog, prior: Slots, v: View)
    requires c.Named()
    ensures var r := Refreshed(c, prior, v);
      ActiveSlot(c, r) == (if r.s1 == "" then 1 else if r.s2 == "" then 2 else 3)
  {
    GetRowBlank(c);
    RefreshedWellFormed(c, prior, v);
  }

  /** `updateUI` sizes the relic from the slots as they were before the
      cascade: for a selection the cascade has already settled, that is
      the number of slots filled after the refresh. */
  lemma StageOfSettledSelection(c: Catalog, prior: Slots, v: View)
    requires c.Named() && prior == Refreshed(c, prior, v)
    ensures Stage(c, prior) == FilledCount(Refreshed(c, prior, v))
  {
    RefreshedWellFormed(c, prior, v);
    StageCountsFilled(c, prior);
  }

  /** When the cascade empties slot 1, the stage drawn in that same
      refresh still counts the slots as they were. */
  lemma StageLagsCascade(c: Catalog, prior: Slots, v: View)
    requires c.Named() && WellFormed(c, prior) && prior.s1 != ""
    requires prior.s1 !in OptionValues(Filtered1(c, v))
    ensures Refreshed(c, prior, v) == Slots("", "", "")
    ensures Stage(c, prior) == FilledCount(prior) > 0
  {
    CascadeFromSlot1(c, prior, v);
    StageCountsFilled(c, prior);
  }

  /** A row typed "Standard" in the catalog data keeps that type. */
  lemma StandardTyped(row: Row)
    requires row.RelicType == "Standard"
    ensures RelicTypeForRow(row) == "Standard"
  {
    assert AllWhitespace([]);
    TrimUnique("Standard", [], "Standard", []);
  }

  /** The lag happens: a Standard-only effect in slot 1, then a switch of
      the relic type to "Depth Of Night", leaves the relic drawn at stage 1
      with every slot empty. */
  lemma StageLagExample()
    ensures var c := Load([Row("1", "Standard", "", "")]);
      var prior := Slots("1", "", "");
      var v := View("Depth Of Night", "", "", "", false);
      Stage(c, prior) == 1 && Refreshed(c, prior, v) == Slots("", "", "")
  {
    var row := Row("1", "Standard", "", "");
    var c := Load([row]);
    var v := View("Depth Of Night", "", "", "", false);
    StandardTyped(row);
    assert !OfferedForType(v.relicType, row);
    assert BaseFilteredByRelicType(c.rows, v.relicType) == [];
    assert Filtered1(c, v) == [];
    assert GetRow(c, "1") == Some(row);
  }

  /** Three rows where the id "y" is repeated: slot 1's "x" and the second
      "y" share group "A", the first "y" has no group. */
  const RepeatedIdRows: seq<Row> := [Row("x", "", "", "A"), Row("y", "", "", ""), Row("y", "", "", "A")]

  /** Loading those rows: the lookup of "y" answers with the last "y". */
  lemma RepeatedIdCatalog()
    ensures var c := Load(RepeatedIdRows);
      && c.Named()
      && GetRow(c, "x") == Some(RepeatedIdRows[0])
      && GetRow(c, "y") == Some(RepeatedIdRows[2])
  {
    var rows := RepeatedIdRows;
    assert IndexById(rows) == IndexById(rows[..2])[rows[2].EffectID := rows[2]];
    assert IndexById(rows[..2]) == IndexById(rows[..1])[rows[1].EffectID := rows[1]];
    assert IndexById(rows[..1]) == map[][rows[0].EffectID := rows[0]] by {
      assert rows[..1][..0] == [];
    }
  }

  /** On such a catalog, slot 2 is offered the ungrouped "y" next to "x",
      so a run keeps the slots ("x", "y", "") as they are, while the lookup
      puts both in group "A". */
  lemma RepeatedIdRun(c: Catalog)
    requires c.rows == RepeatedIdRows
    requires GetRow(c, "x") == Some(RepeatedIdRows[0]) && GetRow(c, "y") == Some(RepeatedIdRows[2])
    ensures var prior := Slots("x", "y", "");
      Refreshed(c, prior, View("", "", "", "", false)) == prior && !CompatDisjoint(c, prior)
  {
    var prior, v := Slots("x", "y", ""), View("", "", "", "", false);
    assert Normalize("") == "" by { assert AllWhitespace(""); }
    BaseFilteredOrder(c.rows, "");
    assert Filtered1(c, v) == c.rows;
    IdOffered(Filtered1(c, v), RepeatedIdRows[0]);
    assert RepeatedIdRows[1] in Eligible2(c, prior, v);
    IdOffered(Filtered2(c, prior, v), RepeatedIdRows[1]);
  }

  /** Why group disjointness needs unique ids: when two rows share an id,
      the lookup answers with the last of them, which need not be the row
      the select offered. The page can reach a selection whose slots clash
      even with illegal picks hidden. */
  lemma RepeatedIdBreaksDisjoint()
    ensures var c := Load(RepeatedIdRows);
      var prior := Slots("x", "y", "");
      c.Named() && Refreshed(c, prior, View("", "", "", "", false)) == prior && !CompatDisjoint(c, prior)
  {
    RepeatedIdCatalog();
    RepeatedIdRun(Load(RepeatedIdRows));
  }
}
