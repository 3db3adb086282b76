/**
 * The effect catalog: the rows read once at load time and the `byId`
 * index built from them, with the per-row accessors of reliquary.js.
 */
module Catalog {
  import opened Text

  datatype Option<+T> = None | Some(value: T)

  /** One catalog entry. Every field is the string the page compares;
      "" stands for a missing or null value. */
  datatype Row = Row(EffectID: string, RelicType: string, EffectCategory: string, CompatibilityID: string)

  /** `compatId(row)`: the compatibility group, "" when there is none. */
  function CompatId(row: Row): string {
    row.CompatibilityID
  }

  /** `relicTypeForRow(row)` */
  function RelicTypeForRow(row: Row): string {
    Normalize(row.RelicType)
  }

  /** `effectCategoryForRow(row)` */
  function EffectCategoryForRow(row: Row): string {
    Normalize(row.EffectCategory)
  }

  /** The ids of a list of rows, in order. */
  function Ids(rows: seq<Row>): (r: seq<string>)
    ensures |r| == |rows|
    ensures forall i :: 0 <= i < |rows| ==> r[i] == rows[i].EffectID
  {
    seq(|rows|, i requires 0 <= i < |rows| => rows[i].EffectID)
  }

  /** `new Map(rows.map(r => [String(r.EffectID), r]))`: later rows
      overwrite earlier rows that share an id. */
  function IndexById(rows: seq<Row>): (m: map<string, Row>)
    ensures forall i :: 0 <= i < |rows| ==> rows[i].EffectID in m
    ensures forall id {:trigger id in m} :: id in m ==> id in Ids(rows) && m[id] in rows && m[id].EffectID == id
  {
    if rows == [] then map[]
    else
      var init := rows[..|rows| - 1];
      var last := rows[|rows| - 1];
      assert forall i :: 0 <= i < |init| ==> init[i] == rows[i];
      IndexById(init)[last.EffectID := last]
  }

  /** The entry for an id is the last row carrying that id. */
  lemma {:induction false} IndexByIdLastWins(rows: seq<Row>, i: nat)
    requires i < |rows|
    requires forall j :: i < j < |rows| ==> rows[j].EffectID != rows[i].EffectID
    ensures IndexById(rows)[rows[i].EffectID] == rows[i]
  {
    if i < |rows| - 1 {
      var init := rows[..|rows| - 1];
      IndexByIdLastWins(init, i);
    }
  }

  predicate DistinctIds(rows: seq<Row>) {
    forall i, j :: 0 <= i < j < |rows| ==> rows[i].EffectID != rows[j].EffectID
  }

  datatype Catalog = Catalog(rows: seq<Row>, byId: map<string, Row>) {
    /** The index is the one `load` builds from the rows. */
    predicate Indexed() {
      byId == IndexById(rows)
    }

    /** No row's id is the empty string a blank slot holds. */
    predicate Named() {
      && Indexed()
      && forall i :: 0 <= i < |rows| ==> rows[i].EffectID != ""
    }

    /** In addition, `EffectID` is a primary key. */
    predicate Keyed() {
      Named() && DistinctIds(rows)
    }
  }

  /** The catalog as `load` leaves it (fetch and JSON parsing aside). */
  function Load(rows: seq<Row>): (c: Catalog)
    ensures c.Indexed() && c.rows == rows
  {
    Catalog(rows, IndexById(rows))
  }

  /** `getRow(effectId)`: the row for an id, or nothing. */
  function GetRow(c: Catalog, id: string): Option<Row> {
    if id in c.byId then Some(c.byId[id]) else None
  }

  /** The lookup only ever answers with a catalog row that carries the id
      asked for, and it answers for exactly the ids the rows carry. */
  lemma GetRowSound(c: Catalog, id: string)
    requires c.Indexed()
    ensures GetRow(c, id).Some? <==> id in Ids(c.rows)
    ensures GetRow(c, id).Some? ==> GetRow(c, id).value in c.rows && GetRow(c, id).value.EffectID == id
  {
    if id in Ids(c.rows) {
      var i :| 0 <= i < |c.rows| && Ids(c.rows)[i] == id;
      assert c.rows[i].EffectID in c.byId;
    }
  }

  /** With unique ids, looking up a row's id gives back that very row. */
  lemma GetRowFindsRow(c: Catalog, row: Row)
    requires c.Keyed() && row in c.rows
    ensures GetRow(c, row.EffectID) == Some(row)
  {
    var i :| 0 <= i < |c.rows| && c.rows[i] == row;
    IndexByIdLastWins(c.rows, i);
  }

  /** The blank slot value never names a row. */
  lemma GetRowBlank(c: Catalog)
    requires c.Named()
    ensures GetRow(c, "") == None
  {
    GetRowSound(c, "");
  }
}
