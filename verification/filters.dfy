/**
 * The three list filters of reliquary.js — relic type, category,
 * eligibility — and the category list offered to the user.
 */
module Filters {
  import opened Text
  import opened Catalog

  /** `r` is `s` with some elements left out, the rest in their order. */
  predicate IsSubsequence<T(==)>(r: seq<T>, s: seq<T>)
    decreases |s|
  {
    || r == []
    || (s != [] && ((r[0] == s[0] && IsSubsequence(r[1..], s[1..])) || IsSubsequence(r, s[1..])))
  }

  lemma {:induction false} IsSubsequenceReflexive<T>(s: seq<T>)
    ensures IsSubsequence(s, s)
  {
    if s != [] {
      IsSubsequenceReflexive(s[1..]);
    }
  }

  // ---------------------------------------------------------------------
  // Relic-type filter

  /** Whether a row is offered under the selected relic type. */
  predicate OfferedForType(selectedType: string, row: Row) {
    var t := RelicTypeForRow(row);
    if selectedType == "Both" then t == "Both"
    else if selectedType == "Standard" then t == "Standard" || t == "Both"
    else if selectedType == "Depth Of Night" then t == "Depth Of Night" || t == "Both"
    else true
  }

  /** `baseFilteredByRelicType()`, with the catalog rows and the relic-type
      select's value as parameters. */
  function BaseFilteredByRelicType(rows: seq<Row>, selectedType: string): (r: seq<Row>)
    ensures forall x {:trigger x in r} :: x in r <==> x in rows && OfferedForType(selectedType, x)
  {
    if rows == [] then []
    else if OfferedForType(selectedType, rows[0]) then [rows[0]] + BaseFilteredByRelicType(rows[1..], selectedType)
    else BaseFilteredByRelicType(rows[1..], selectedType)
  }

  /** The relic-type filter keeps the rows in their order, and keeps them
      all when every row is offered. */
  lemma {:induction false} BaseFilteredOrder(rows: seq<Row>, selectedType: string)
    ensures IsSubsequence(BaseFilteredByRelicType(rows, selectedType), rows)
    ensures (forall x :: x in rows ==> OfferedForType(selectedType, x)) ==>
      BaseFilteredByRelicType(rows, selectedType) == rows
  {
    if rows != [] {
      BaseFilteredOrder(rows[1..], selectedType);
    }
  }

  /** The relic-type policy case by case: "Standard" and "Depth Of Night"
      keep their own rows and the "Both" rows, "Both" keeps only the
      "Both" rows, and any other value keeps the whole catalog. */
  lemma RelicTypeFilterCases(rows: seq<Row>, selectedType: string)
    ensures var r := BaseFilteredByRelicType(rows, selectedType);
      && (selectedType == "Standard" ==>
            forall x :: x in r <==> x in rows && (RelicTypeForRow(x) == "Standard" || RelicTypeForRow(x) == "Both"))
      && (selectedType == "Depth Of Night" ==>
            forall x :: x in r <==> x in rows && (RelicTypeForRow(x) == "Depth Of Night" || RelicTypeForRow(x) == "Both"))
      && (selectedType == "Both" ==>
            forall x :: x in r <==> x in rows && RelicTypeForRow(x) == "Both")
      && (selectedType != "Standard" && selectedType != "Depth Of Night" && selectedType != "Both" ==>
            r == rows)
      && IsSubsequence(r, rows)
  {
    BaseFilteredOrder(rows, selectedType);
  }

  /** The relic-type filter keeps every copy of an offered row and no copy
      of any other, so its length counts the offered rows. */
  lemma {:induction false} BaseFilteredMultiplicity(rows: seq<Row>, selectedType: string, x: Row)
    ensures multiset(BaseFilteredByRelicType(rows, selectedType))[x]
         == if OfferedForType(selectedType, x) then multiset(rows)[x] else 0
  {
    if rows != [] {
      BaseFilteredMultiplicity(rows[1..], selectedType, x);
      assert rows == [rows[0]] + rows[1..];
    }
  }

  /** Rows typed "Both" are offered under every selection. */
  lemma BothRowsAlwaysOffered(rows: seq<Row>, selectedType: string, row: Row)
    requires row in rows && RelicTypeForRow(row) == "Both"
    ensures row in BaseFilteredByRelicType(rows, selectedType)
  {
  }

  // ---------------------------------------------------------------------
  // Category filter and category list

  /** `applyCategory(list, catValue)`. */
  function ApplyCategory(list: seq<Row>, catValue: string): (r: seq<Row>)
    ensures forall x {:trigger x in r} :: x in r ==> x in list
    ensures Normalize(catValue) == "" ==> r == list
    ensures Normalize(catValue) != "" ==>
      forall x {:trigger x in r} :: x in r <==> x in list && EffectCategoryForRow(x) == Normalize(catValue)
  {
    var c := Normalize(catValue);
    if c == "" then list else InCategory(list, c)
  }

  /** The rows of a list whose trimmed category is `c`. */
  function InCategory(list: seq<Row>, c: string): (r: seq<Row>)
    ensures forall x {:trigger x in r} :: x in r <==> x in list && EffectCategoryForRow(x) == c
  {
    if list == [] then []
    else if EffectCategoryForRow(list[0]) == c then [list[0]] + InCategory(list[1..], c)
    else InCategory(list[1..], c)
  }

  lemma {:induction false} InCategoryOrder(list: seq<Row>, c: string)
    ensures IsSubsequence(InCategory(list, c), list)
  {
    if list != [] {
      InCategoryOrder(list[1..], c);
    }
  }

  lemma {:induction false} InCategoryMultiplicity(list: seq<Row>, c: string, x: Row)
    ensures multiset(InCategory(list, c))[x] == if EffectCategoryForRow(x) == c then multiset(list)[x] else 0
  {
    if list != [] {
      InCategoryMultiplicity(list[1..], c, x);
      assert list == [list[0]] + list[1..];
    }
  }

  /** The category filter keeps every copy of a row in the category and no
      copy of any other. */
  lemma ApplyCategoryMultiplicity(list: seq<Row>, catValue: string, x: Row)
    ensures multiset(ApplyCategory(list, catValue))[x]
         == if Normalize(catValue) == "" || EffectCategoryForRow(x) == Normalize(catValue) then multiset(list)[x] else 0
  {
    if Normalize(catValue) != "" {
      InCategoryMultiplicity(list, Normalize(catValue), x);
    }
  }

  /** The category filter keeps the rows in their order. */
  lemma ApplyCategoryPreservesOrder(list: seq<Row>, catValue: string)
    ensures IsSubsequence(ApplyCategory(list, catValue), list)
  {
    var c := Normalize(catValue);
    if c == "" {
      IsSubsequenceReflexive(list);
    } else {
      InCategoryOrder(list, c);
    }
  }

  lemma {:induction false} InCategoryIdempotent(list: seq<Row>, c: string)
    ensures InCategory(InCategory(list, c), c) == InCategory(list, c)
  {
    if list != [] {
      InCategoryIdempotent(list[1..], c);
    }
  }

  /** Filtering by a category a second time changes nothing. */
  lemma ApplyCategoryIdempotent(list: seq<Row>, catValue: string)
    ensures ApplyCategory(ApplyCategory(list, catValue), catValue) == ApplyCategory(list, catValue)
  {
    var c := Normalize(catValue);
    if c != "" {
      InCategoryIdempotent(list, c);
    }
  }

  /** Whether a row passes the category filter depends on the row alone,
      not on the rest of the list. */
  lemma ApplyCategoryKeeps(list: seq<Row>, list': seq<Row>, catValue: string, x: Row)
    requires x in ApplyCategory(list, catValue) && x in list'
    ensures x in ApplyCategory(list', catValue)
  {
  }

  predicate StrictlySorted(s: seq<string>) {
    forall i, j :: 0 <= i < j < |s| ==> Less(s[i], s[j])
  }

  /** Adds `x` to a sorted list of distinct strings, keeping it sorted and
      distinct: one step of building `[...new Set(…)].sort()`. */
  function InsertSorted(x: string, s: seq<string>): (r: seq<string>)
    requires StrictlySorted(s)
    ensures StrictlySorted(r)
    ensures forall y {:trigger y in r} :: y in r <==> y == x || y in s
  {
    if s == [] then [x]
    else if x == s[0] then s
    else if Less(x, s[0]) then
      assert forall j :: 0 <= j < |s| ==> Less(x, s[j]) by {
        forall j | 0 < j < |s| ensures Less(x, s[j]) { LessTransitive(x, s[0], s[j]); }
      }
      [x] + s
    else
      LessTotal(x, s[0]);
      var rest := InsertSorted(x, s[1..]);
      assert forall y :: y in rest ==> Less(s[0], y);
      [s[0]] + rest
  }

  /** The distinct non-empty categories of a list. */
  ghost function CategorySet(list: seq<Row>): set<string> {
    set x | x in list && EffectCategoryForRow(x) != "" :: EffectCategoryForRow(x)
  }

  /** `categoriesFor(list)`: the distinct non-empty trimmed categories,
      sorted. */
  function CategoriesFor(list: seq<Row>): (r: seq<string>)
    ensures StrictlySorted(r)
    ensures forall c {:trigger c in r} :: c in r <==> c in CategorySet(list)
  {
    if list == [] then []
    else
      var c := EffectCategoryForRow(list[0]);
      var rest := CategoriesFor(list[1..]);
      assert CategorySet(list) == CategorySet(list[1..]) + (if c != "" then {c} else {}) by {
        assert list == [list[0]] + list[1..];
      }
      if c == "" then rest else InsertSorted(c, rest)
  }

  /** A strictly sorted list has no repeated element. */
  lemma StrictlySortedDistinct(s: seq<string>, i: nat, j: nat)
    requires StrictlySorted(s) && i < j < |s|
    ensures s[i] != s[j]
  {
    LessIrreflexive(s[i]);
  }

  /** Two strictly sorted lists with the same elements are the same list:
      the category list does not depend on how the set is sorted. */
  lemma {:induction false} SortedSetUnique(a: seq<string>, b: seq<string>)
    requires StrictlySorted(a) && StrictlySorted(b)
    requires forall x :: x in a <==> x in b
    ensures a == b
  {
    assert a != [] ==> a[0] in b;
    assert b != [] ==> b[0] in a;
    if a != [] {
      assert a[0] == b[0] by {
        if a[0] != b[0] {
          assert a[0] in b && b[0] in a;
          var j :| 0 <= j < |b| && b[j] == a[0];
          var k :| 0 <= k < |a| && a[k] == b[0];
          assert Less(b[0], a[0]);
          assert Less(a[0], b[0]);
          LessTransitive(a[0], b[0], a[0]);
          LessIrreflexive(a[0]);
        }
      }
      forall x ensures x in a[1..] <==> x in b[1..] {
        if x in a[1..] {
          var i :| 1 <= i < |a| && a[i] == x;
          StrictlySortedDistinct(a, 0, i);
          assert x in b;
        }
        if x in b[1..] {
          var i :| 1 <= i < |b| && b[i] == x;
          StrictlySortedDistinct(b, 0, i);
          assert x in a;
        }
      }
      SortedSetUnique(a[1..], b[1..]);
      assert a == [a[0]] + a[1..] && b == [b[0]] + b[1..];
    }
  }

  /** Each category offered selects at least one row of the list it was
      computed from. */
  lemma OfferedCategorySelectsRows(list: seq<Row>, cat: string)
    requires cat in CategoriesFor(list)
    ensures ApplyCategory(list, cat) != []
  {
    var x :| x in list && EffectCategoryForRow(x) != "" && EffectCategoryForRow(x) == cat;
    NormalizeIdempotent(x.EffectCategory);
    assert x in ApplyCategory(list, cat);
  }

  // ---------------------------------------------------------------------
  // Eligibility filter

  /** The per-row test inside `eligibleList`. */
  predicate Eligible(row: Row, blockedCompatIds: set<string>, takenIds: set<string>, showIllegal: bool) {
    if row.EffectID in takenIds then false
    else if showIllegal then true
    else
      var cid := CompatId(row);
      cid == "" || cid !in blockedCompatIds
  }

  /** `eligibleList(blockedCompatIds, takenIds, showIllegal)`: the
      relic-type pool minus taken ids and, unless illegal picks are shown,
      minus rows whose compatibility group is blocked. */
  function EligibleList(rows: seq<Row>, selectedType: string, blockedCompatIds: set<string>,
                        takenIds: set<string>, showIllegal: bool): (r: seq<Row>)
    ensures forall x {:trigger x in r} :: x in r ==> x in rows && x.EffectID !in takenIds
    ensures showIllegal ==>
      forall x {:trigger x in r} :: x in r <==> x in BaseFilteredByRelicType(rows, selectedType) && x.EffectID !in takenIds
    ensures !showIllegal ==>
      forall x {:trigger x in r} :: x in r <==>
        && x in BaseFilteredByRelicType(rows, selectedType)
        && x.EffectID !in takenIds
        && (CompatId(x) == "" || CompatId(x) !in blockedCompatIds)
  {
    EligibleAmong(BaseFilteredByRelicType(rows, selectedType), blockedCompatIds, takenIds, showIllegal)
  }

  /** The rows of `pool` that pass the per-row test, in order. */
  function EligibleAmong(pool: seq<Row>, blockedCompatIds: set<string>, takenIds: set<string>,
                         showIllegal: bool): (r: seq<Row>)
    ensures forall x {:trigger x in r} :: x in r <==> x in pool && Eligible(x, blockedCompatIds, takenIds, showIllegal)
  {
    if pool == [] then []
    else if Eligible(pool[0], blockedCompatIds, takenIds, showIllegal) then
      [pool[0]] + EligibleAmong(pool[1..], blockedCompatIds, takenIds, showIllegal)
    else EligibleAmong(pool[1..], blockedCompatIds, takenIds, showIllegal)
  }

  lemma {:induction false} EligibleAmongOrder(pool: seq<Row>, blockedCompatIds: set<string>,
                                              takenIds: set<string>, showIllegal: bool)
    ensures IsSubsequence(EligibleAmong(pool, blockedCompatIds, takenIds, showIllegal), pool)
  {
    if pool != [] {
      EligibleAmongOrder(pool[1..], blockedCompatIds, takenIds, showIllegal);
    }
  }

  lemma {:induction false} EligibleAmongMultiplicity(pool: seq<Row>, blockedCompatIds: set<string>,
                                                     takenIds: set<string>, showIllegal: bool, x: Row)
    ensures multiset(EligibleAmong(pool, blockedCompatIds, takenIds, showIllegal))[x]
         == if Eligible(x, blockedCompatIds, takenIds, showIllegal) then multiset(pool)[x] else 0
  {
    if pool != [] {
      EligibleAmongMultiplicity(pool[1..], blockedCompatIds, takenIds, showIllegal, x);
      assert pool == [pool[0]] + pool[1..];
    }
  }

  /** The eligible list keeps every copy of an eligible pool row and no copy
      of any other, so its length counts the eligible rows of the pool. */
  lemma EligibleListMultiplicity(rows: seq<Row>, selectedType: string, blockedCompatIds: set<string>,
                                 takenIds: set<string>, showIllegal: bool, x: Row)
    ensures multiset(EligibleList(rows, selectedType, blockedCompatIds, takenIds, showIllegal))[x]
         == if OfferedForType(selectedType, x) && Eligible(x, blockedCompatIds, takenIds, showIllegal)
            then multiset(rows)[x] else 0
  {
    EligibleAmongMultiplicity(BaseFilteredByRelicType(rows, selectedType), blockedCompatIds, takenIds, showIllegal, x);
    BaseFilteredMultiplicity(rows, selectedType, x);
  }

  /** The eligible list keeps the relic-type pool's order. */
  lemma EligibleListPreservesOrder(rows: seq<Row>, selectedType: string, blockedCompatIds: set<string>,
                                   takenIds: set<string>, showIllegal: bool)
    ensures IsSubsequence(EligibleList(rows, selectedType, blockedCompatIds, takenIds, showIllegal),
                          BaseFilteredByRelicType(rows, selectedType))
  {
    EligibleAmongOrder(BaseFilteredByRelicType(rows, selectedType), blockedCompatIds, takenIds, showIllegal);
  }

  /** Showing illegal picks only ever adds rows; it never removes one. */
  lemma ShowIllegalOnlyWidens(rows: seq<Row>, selectedType: string, blocked: set<string>, taken: set<string>, row: Row)
    requires row in EligibleList(rows, selectedType, blocked, taken, false)
    ensures row in EligibleList(rows, selectedType, blocked, taken, true)
  {
  }

  /** Fewer taken ids or fewer blocked groups never shrink the list. */
  lemma EligibleAntitone(rows: seq<Row>, selectedType: string, blocked: set<string>, taken: set<string>,
                         blocked': set<string>, taken': set<string>, showIllegal: bool, row: Row)
    requires blocked' <= blocked && taken' <= taken
    requires row in EligibleList(rows, selectedType, blocked, taken, showIllegal)
    ensures row in EligibleList(rows, selectedType, blocked', taken', showIllegal)
  {
  }
}
