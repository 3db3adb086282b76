/**
 * The page state reliquary.js keeps and rewrites: for each of the three
 * effect columns the effect select (its value and option values), whether
 * it is disabled together with its category select, and the count line
 * under it; then the status line and the relic size.
 */
module Reliquary {
  import opened Text
  import opened Catalog
  import opened Filters
  import opened Selection

  /** The text of a count line: empty, or "(n Effects Available …)". */
  datatype CountLabel = Blank | Available(n: nat)

  /** The status line, one value per message the page writes. */
  datatype Status = Loading | PickEffect1(loaded: nat) | ChooseEffect2 | ChooseEffect3 | AllSelected

  /** One effect column: `selN.value`, the values of `selN.options`
      (placeholder first), `selN.disabled` (which `catN.disabled` always
      equals) and `countN`. */
  datatype EffectBox = EffectBox(value: string, options: seq<string>, locked: bool, count: CountLabel)

  /** Everything `updateUI` writes that the model keeps. */
  datatype Page = Page(box1: EffectBox, box2: EffectBox, box3: EffectBox, status: Status, imageStage: nat)

  /** The label `updateCounts(active, n)` leaves on column `k`. */
  function CountFor(active: nat, k: nat, n: nat): CountLabel {
    if active == k then Available(n) else Blank
  }

  /** The status message for the slots after the refill: the first slot
      that names no row decides it. */
  function StatusFor(c: Catalog, sel: Slots): Status {
    if GetRow(c, sel.s1).None? then PickEffect1(|c.rows|)
    else if GetRow(c, sel.s2).None? then ChooseEffect2
    else if GetRow(c, sel.s3).None? then ChooseEffect3
    else AllSelected
  }

  /** The page after one `updateUI` run from the slots `prior` with the
      other controls at `v`. Column 1 is never locked; column 2 is locked
      when slot 1 named no row before the run, column 3 also when slot 2
      named none. Columns 2 and 3 offer only the placeholder unless the
      slots to their left name rows after the refill. */
  function Rendered(c: Catalog, prior: Slots, v: View): Page {
    var r := Refreshed(c, prior, v);
    var active := ActiveSlot(c, r);
    var n := AvailableCount(c, prior, v);
    var open2 := GetRow(c, r.s1).Some?;
    var open3 := open2 && GetRow(c, r.s2).Some?;
    Page(EffectBox(r.s1, OptionValues(Filtered1(c, v)), false, CountFor(active, 1, n)),
         EffectBox(r.s2, OptionValues(if open2 then Filtered2(c, prior, v) else []),
                   GetRow(c, prior.s1).None?, CountFor(active, 2, n)),
         EffectBox(r.s3, OptionValues(if open3 then Filtered3(c, prior, v) else []),
                   GetRow(c, prior.s1).None? || GetRow(c, prior.s2).None?, CountFor(active, 3, n)),
         StatusFor(c, r),
         Stage(c, prior))
  }

  /** `updateCounts(activeIndex, availableCount)`: only the active
      column's count line shows the number; the others are cleared. */
  method UpdateCounts(activeIndex: int, availableCount: nat) returns (c1: CountLabel, c2: CountLabel, c3: CountLabel)
    ensures c1 == (if activeIndex == 1 then Available(availableCount) else Blank)
    ensures c2 == (if activeIndex == 2 then Available(availableCount) else Blank)
    ensures c3 == (if activeIndex == 3 then Available(availableCount) else Blank)
  {
    c1, c2, c3 := Blank, Blank, Blank;
    if activeIndex == 1 { c1 := Available(availableCount); }
    if activeIndex == 2 { c2 := Available(availableCount); }
    if activeIndex == 3 { c3 := Available(availableCount); }
  }

  /** The start of `updateUI`: the ids slots 2 and 3 may not repeat, the
      compatibility groups the rows to their left block, and from these
      the list each effect select offers. */
  method AvailableLists(c: Catalog, prior: Slots, v: View) returns (filtered1: seq<Row>, filtered2: seq<Row>, filtered3: seq<Row>)
    ensures filtered1 == Filtered1(c, v)
    ensures filtered2 == Filtered2(c, prior, v)
    ensures filtered3 == Filtered3(c, prior, v)
  {
    var a := GetRow(c, prior.s1);
    var b := GetRow(c, prior.s2);

    var takenFor2 := TakenIds(prior.s1, prior.s3);
    var takenFor3 := TakenIds(prior.s1, prior.s2);

    var blockedFor2: set<string> := {};
    if a.Some? {
      var cidA := CompatId(a.value);
      if cidA != "" { blockedFor2 := blockedFor2 + {cidA}; }
    }
    var blockedFor3: set<string> := {};
    if a.Some? {
      var cidA := CompatId(a.value);
      if cidA != "" { blockedFor3 := blockedFor3 + {cidA}; }
    }
    if b.Some? {
      var cidB := CompatId(b.value);
      if cidB != "" { blockedFor3 := blockedFor3 + {cidB}; }
    }
    assert blockedFor2 == BlockedFor2(c, prior);
    assert blockedFor3 == BlockedFor3(c, prior);

    var base1 := BaseFilteredByRelicType(c.rows, v.relicType);
    filtered1 := ApplyCategory(base1, v.cat1);
    var eligible2 := if a.Some? then EligibleList(c.rows, v.relicType, blockedFor2, takenFor2, v.showIllegal) else [];
    filtered2 := ApplyCategory(eligible2, v.cat2);
    var eligible3 := if a.Some? && b.Some? then EligibleList(c.rows, v.relicType, blockedFor3, takenFor3, v.showIllegal) else [];
    filtered3 := ApplyCategory(eligible3, v.cat3);
  }

  /** The middle of `updateUI`: refill each effect select from its list
      and keep its old value if the refilled select still offers it;
      slot 1 losing its value empties all three, and slots 2 and 3 get
      the placeholder alone unless the slots to their left name rows. */
  method RefillSelects(c: Catalog, prior: Slots, v: View, filtered1: seq<Row>, filtered2: seq<Row>, filtered3: seq<Row>)
    returns (k1: string, k2: string, k3: string, o1: seq<string>, o2: seq<string>, o3: seq<string>)
    requires filtered1 == Filtered1(c, v)
    requires filtered2 == Filtered2(c, prior, v)
    requires filtered3 == Filtered3(c, prior, v)
    ensures Slots(k1, k2, k3) == Refreshed(c, prior, v)
    ensures o1 == OptionValues(filtered1)
    ensures o2 == OptionValues(if GetRow(c, k1).Some? then filtered2 else [])
    ensures o3 == OptionValues(if GetRow(c, k1).Some? && GetRow(c, k2).Some? then filtered3 else [])
    ensures k1 in o1 && k2 in o2 && k3 in o3
  {
    var prev1, prev2, prev3 := prior.s1, prior.s2, prior.s3;

    o1 := OptionValues(filtered1);
    if prev1 !in o1 {
      k1, k2, k3 := "", "", "";
    } else {
      k1 := prev1;
    }

    var a2 := GetRow(c, k1);
    if a2.Some? {
      o2 := OptionValues(filtered2);
      if prev2 in o2 { k2 := prev2; } else { k2 := ""; }
    } else {
      o2 := OptionValues([]);
      k2 := "";
    }

    var b2 := GetRow(c, k2);
    if a2.Some? && b2.Some? {
      o3 := OptionValues(filtered3);
      if prev3 in o3 { k3 := prev3; } else { k3 := ""; }
    } else {
      o3 := OptionValues([]);
      k3 := "";
    }
  }

  /** The end of `updateUI`: the status line and the count shown under the
      first column whose slot names no row (column 3 once all do). */
  method ReportProgress(c: Catalog, k1: string, k2: string, k3: string,
                        filtered1: seq<Row>, filtered2: seq<Row>, filtered3: seq<Row>)
    returns (st: Status, c1: CountLabel, c2: CountLabel, c3: CountLabel)
    ensures var active := ActiveSlot(c, Slots(k1, k2, k3));
      var n := if active == 1 then |filtered1| else if active == 2 then |filtered2| else |filtered3|;
      c1 == CountFor(active, 1, n) && c2 == CountFor(active, 2, n) && c3 == CountFor(active, 3, n)
    ensures st == StatusFor(c, Slots(k1, k2, k3))
  {
    if GetRow(c, k1).None? {
      st := PickEffect1(|c.rows|);
      c1, c2, c3 := UpdateCounts(1, |filtered1|);
      return;
    }
    if GetRow(c, k2).None? {
      st := ChooseEffect2;
      c1, c2, c3 := UpdateCounts(2, |filtered2|);
      return;
    }
    if GetRow(c, k3).None? {
      st := ChooseEffect3;
      c1, c2, c3 := UpdateCounts(3, |filtered3|);
      return;
    }
    st := AllSelected;
    c1, c2, c3 := UpdateCounts(3, |filtered3|);
  }

  /** One `updateUI` run, step by step: size the relic and lock columns
      from the slots as they were, build the lists, refill, report. */
  method ComputePage(c: Catalog, prior: Slots, v: View) returns (p: Page)
    ensures p == Rendered(c, prior, v)
  {
    var a := GetRow(c, prior.s1);
    var b := GetRow(c, prior.s2);
    var cc := GetRow(c, prior.s3);
    var stage := if cc.Some? then 3 else if b.Some? then 2 else if a.Some? then 1 else 0;
    var locked2 := a.None?;
    var locked3 := a.None? || b.None?;

    var filtered1, filtered2, filtered3 := AvailableLists(c, prior, v);
    var k1, k2, k3, o1, o2, o3 := RefillSelects(c, prior, v, filtered1, filtered2, filtered3);
    var st, c1, c2, c3 := ReportProgress(c, k1, k2, k3, filtered1, filtered2, filtered3);

    p := Page(EffectBox(k1, o1, false, c1), EffectBox(k2, o2, locked2, c2), EffectBox(k3, o3, locked3, c3), st, stage);
  }

  /** Whether a column's count line shows a number. */
  function Shows(b: EffectBox): nat {
    if b.count.Available? then 1 else 0
  }

  /** After every run each effect select holds one of its own option
      values. */
  lemma RenderedOffersValues(c: Catalog, prior: Slots, v: View)
    ensures var p := Rendered(c, prior, v);
      && p.box1.value in p.box1.options
      && p.box2.value in p.box2.options
      && p.box3.value in p.box3.options
  {
  }

  /** A locked column ends the run empty and offers only the placeholder;
      locking column 2 empties column 3 as well. */
  lemma RenderedLockedBoxesEmpty(c: Catalog, prior: Slots, v: View)
    requires c.Named()
    ensures var p := Rendered(c, prior, v);
      && (p.box2.locked ==> p.box2.value == "" && p.box3.value == "" && p.box2.options == [""] && p.box3.options == [""])
      && (p.box3.locked ==> p.box3.value == "" && p.box3.options == [""])
  {
    GetRowBlank(c);
    LockedSlotsEmpty(c, prior, v);
    var r := Refreshed(c, prior, v);
    if GetRow(c, prior.s1).None? && r.s1 != "" {
      var _ := OfferedId(c, Filtered1(c, v), r.s1);
    }
    if GetRow(c, prior.s2).None? && r.s2 != "" {
      Kept2Filled(c, prior, v);
      var _ := OfferedId(c, Filtered2(c, prior, v), prior.s2);
    }
  }

  /** Exactly one column shows a count, and the number it shows is the
      number of effects that column's select offers. */
  lemma RenderedCountMatchesOptions(c: Catalog, prior: Slots, v: View)
    ensures var p := Rendered(c, prior, v);
      && Shows(p.box1) + Shows(p.box2) + Shows(p.box3) == 1
      && (p.box1.count.Available? ==> p.box1.count.n == |p.box1.options| - 1)
      && (p.box2.count.Available? ==> p.box2.count.n == |p.box2.options| - 1)
      && (p.box3.count.Available? ==> p.box3.count.n == |p.box3.options| - 1)
  {
  }

  /** The count sits under the first empty column, or under column 3 once
      every column is filled. */
  lemma RenderedCountUnderFirstEmpty(c: Catalog, prior: Slots, v: View)
    requires c.Named()
    ensures var p := Rendered(c, prior, v);
      && (p.box1.count.Available? <==> p.box1.value == "")
      && (p.box2.count.Available? <==> p.box1.value != "" && p.box2.value == "")
      && (p.box3.count.Available? <==> p.box1.value != "" && p.box2.value != "")
  {
    ActiveSlotIsFirstEmpty(c, prior, v);
  }

  /** The status line tells how many slots are filled after the run. */
  lemma RenderedStatusCountsFilled(c: Catalog, prior: Slots, v: View)
    requires c.Named()
    ensures var p := Rendered(c, prior, v);
      var filled := FilledCount(Slots(p.box1.value, p.box2.value, p.box3.value));
      && (p.status == PickEffect1(|c.rows|) <==> filled == 0)
      && (p.status == ChooseEffect2 <==> filled == 1)
      && (p.status == ChooseEffect3 <==> filled == 2)
      && (p.status == AllSelected <==> filled == 3)
  {
    GetRowBlank(c);
    RefreshedWellFormed(c, prior, v);
  }

  /** The first render after `load`: every slot empty, column 1 offering
      the whole relic-type pool with its size as the count, columns 2 and 3
      locked on the placeholder, the relic at its default image. */
  lemma FirstRender(c: Catalog, relicType: string, showIllegal: bool)
    requires GetRow(c, "") == None
    ensures var base := BaseFilteredByRelicType(c.rows, relicType);
      Rendered(c, Slots("", "", ""), View(relicType, "", "", "", showIllegal))
      == Page(EffectBox("", OptionValues(base), false, Available(|base|)),
              EffectBox("", [""], true, Blank),
              EffectBox("", [""], true, Blank),
              PickEffect1(|c.rows|),
              0)
  {
    var prior, v := Slots("", "", ""), View(relicType, "", "", "", showIllegal);
    assert Filtered1(c, v) == BaseFilteredByRelicType(c.rows, relicType) by {
      assert Normalize("") == "" by { assert AllWhitespace(""); }
    }
    assert Refreshed(c, prior, v) == prior;
  }

  /** Rows loaded with non-empty ids leave the blank slot value unnamed. */
  lemma LoadedBlankNamesNoRow(data: seq<Row>)
    requires forall x :: x in data ==> x.EffectID != ""
    ensures GetRow(Load(data), "") == None
  {
    GetRowSound(Load(data), "");
  }

  class Session {
    /** `rows` and `byId`, fixed once `load` has run. */
    const catalog: Catalog
    /** The values the three category selects offer after the placeholder. */
    var categoryOptions: seq<string>
    var box1: EffectBox
    var box2: EffectBox
    var box3: EffectBox
    /** `statusText` */
    var status: Status
    /** The stage the relic image is drawn for: 0 default, 1 small,
        2 medium, 3 large. */
    var imageStage: nat

    /** The values of the three effect selects. */
    function Current(): Slots
      reads this
    {
      Slots(box1.value, box2.value, box3.value)
    }

    /** What the page shows. */
    function Shown(): Page
      reads this
    {
      Page(box1, box2, box3, status, imageStage)
    }

    /** `load()` once the data has arrived: index the rows, fill the
        category selects from the relic-type pool, fill effect 1 with that
        pool and effects 2 and 3 with the placeholder alone, then render
        once with every slot and category select on its placeholder. */
    constructor (data: seq<Row>, relicType: string, showIllegal: bool)
      ensures catalog == Load(data)
      ensures categoryOptions == CategoriesFor(BaseFilteredByRelicType(catalog.rows, relicType))
      ensures Shown() == Rendered(catalog, Slots("", "", ""), View(relicType, "", "", "", showIllegal))
    {
      var loaded := Load(data);
      var base := BaseFilteredByRelicType(loaded.rows, relicType);
      catalog := loaded;
      categoryOptions := CategoriesFor(base);
      box1 := EffectBox("", OptionValues(base), false, Blank);
      box2 := EffectBox("", OptionValues([]), false, Blank);
      box3 := EffectBox("", OptionValues([]), false, Blank);
      status := Loading;
      imageStage := 0;
      new;
      assert Current() == Slots("", "", "");
      UpdateUI(View(relicType, "", "", "", showIllegal));
    }

    /** `updateUI()` with the other controls at `v`: the page becomes the
        rendering of the slots as they were. */
    method UpdateUI(v: View)
      modifies this`box1, this`box2, this`box3, this`status, this`imageStage
      ensures Shown() == Rendered(catalog, old(Current()), v)
    {
      var p := ComputePage(catalog, Current(), v);
      box1, box2, box3, status, imageStage := p.box1, p.box2, p.box3, p.status, p.imageStage;
    }
  }
}
