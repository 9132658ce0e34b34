/** add_highest_overlap_crosswalk of epsql.py: each destination row within an
    optional text range of its id receives the id of the source row that
    overlaps it most, among the sources that intersect it without merely
    touching it. The spatial predicates and the overlap area belong to the
    geometry engine and are oracles here. */
module Crosswalk {
  import opened Common
  import opened Text

  /** st_intersects, st_touches and st_area(st_intersection(...)), the last one
      as an abstract integer measure. */
  datatype Spatial = Spatial(intersects: (Geometry, Geometry) -> bool,
                             touches: (Geometry, Geometry) -> bool,
                             overlapArea: (Geometry, Geometry) -> int)

  /** A source row: the value of src_col and its geometry. */
  datatype SrcRow = SrcRow(id: string, geom: Geometry)

  /** A destination row: its geometry and its text columns, where None is NULL. */
  datatype DestRow = DestRow(geom: Geometry, columns: map<string, Option<string>>)

  /** The join condition: the geometries intersect and do not merely touch. */
  predicate Qualifies(sp: Spatial, src: Geometry, dest: Geometry)
  {
    sp.intersects(src, dest) && !sp.touches(src, dest)
  }

  /** The row `distinct on (dest_id) ... order by area desc` keeps for one
      destination: a qualifying source of largest overlap, or None when no
      source qualifies. Among equal areas the order is unspecified; this
      model keeps the earliest. */
  function BestSource(srcs: seq<SrcRow>, dest: Geometry, sp: Spatial): (r: Option<SrcRow>)
    ensures r.None? <==> forall k :: 0 <= k < |srcs| ==> !Qualifies(sp, srcs[k].geom, dest)
    ensures r.Some? ==> r.value in srcs && Qualifies(sp, r.value.geom, dest)
    ensures r.Some? ==> forall k :: 0 <= k < |srcs| && Qualifies(sp, srcs[k].geom, dest) ==>
      sp.overlapArea(srcs[k].geom, dest) <= sp.overlapArea(r.value.geom, dest)
    decreases |srcs|
  {
    if |srcs| == 0 then None
    else
      var rest := BestSource(srcs[1..], dest, sp);
      assert forall k :: 1 <= k < |srcs| ==> srcs[k] == srcs[1..][k - 1];
      if !Qualifies(sp, srcs[0].geom, dest) then rest
      else if rest.None? || sp.overlapArea(rest.value.geom, dest) <= sp.overlapArea(srcs[0].geom, dest) then Some(srcs[0])
      else rest
  }

  /** A bound as `if dest_row_id_min:` reads it: None and "" impose nothing. */
  predicate Given(bound: Option<string>)
  {
    bound.Some? && bound.value != ""
  }

  /** The clause of a minimum bound: dest.{dest_row_id} >= '{min}'. */
  function MinClause(destRowId: string, rowIdMin: string): string
  {
    "dest." + destRowId + " >= '" + rowIdMin + "'"
  }

  /** The clause of a maximum bound: dest.{dest_row_id} <= '{max}'. */
  function MaxClause(destRowId: string, rowIdMax: string): string
  {
    "dest." + destRowId + " <= '" + rowIdMax + "'"
  }

  /** The where_clauses list, one clause per given bound, the minimum first. */
  function WhereClauses(destRowId: string, rowIdMin: Option<string>, rowIdMax: Option<string>): (r: seq<string>)
    ensures |r| == (if Given(rowIdMin) then 1 else 0) + (if Given(rowIdMax) then 1 else 0)
    ensures Given(rowIdMin) ==> r[0] == MinClause(destRowId, rowIdMin.value)
    ensures Given(rowIdMax) ==> r[|r| - 1] == MaxClause(destRowId, rowIdMax.value)
  {
    (if Given(rowIdMin) then [MinClause(destRowId, rowIdMin.value)] else [])
    + (if Given(rowIdMax) then [MaxClause(destRowId, rowIdMax.value)] else [])
  }

  /** where_cond: the clauses joined by " and "; empty exactly when neither
      bound is given, so that no where clause is emitted. */
  function WhereCond(destRowId: string, rowIdMin: Option<string>, rowIdMax: Option<string>): (r: string)
    ensures r == "" <==> !Given(rowIdMin) && !Given(rowIdMax)
    ensures Given(rowIdMin) && !Given(rowIdMax) ==> r == MinClause(destRowId, rowIdMin.value)
    ensures !Given(rowIdMin) && Given(rowIdMax) ==> r == MaxClause(destRowId, rowIdMax.value)
    ensures Given(rowIdMin) && Given(rowIdMax) ==>
      r == MinClause(destRowId, rowIdMin.value) + " and " + MaxClause(destRowId, rowIdMax.value)
  {
    var clauses := WhereClauses(destRowId, rowIdMin, rowIdMax);
    assert |clauses| == 2 ==> Join(clauses[1..], " and ") == clauses[1];
    Join(clauses, " and ")
  }

  /** What where_cond selects, with text compared character by character. */
  predicate InBounds(id: string, rowIdMin: Option<string>, rowIdMax: Option<string>)
  {
    (Given(rowIdMin) ==> LexLe(rowIdMin.value, id)) && (Given(rowIdMax) ==> LexLe(id, rowIdMax.value))
  }

  /** A range whose maximum sorts before its minimum selects no row. */
  lemma InvertedRangeSelectsNothing(id: string, rowIdMin: string, rowIdMax: string)
    requires rowIdMin != "" && rowIdMax != "" && LexLess(rowIdMax, rowIdMin)
    ensures !InBounds(id, Some(rowIdMin), Some(rowIdMax))
  {
    if InBounds(id, Some(rowIdMin), Some(rowIdMax)) {
      if rowIdMin != id {
        LexLessTransitive(rowIdMax, rowIdMin, id);
        if id != rowIdMax {
          LexLessTransitive(rowIdMax, id, rowIdMax);
        }
      } else if id != rowIdMax {
        LexLessTransitive(rowIdMax, id, rowIdMax);
      }
      LexLessIrreflexive(rowIdMax);
    }
  }

  /** A range whose bounds are one and the same id selects that id and no
      other. */
  lemma PointRangeSelectsOne(id: string, bound: string)
    requires bound != ""
    ensures InBounds(id, Some(bound), Some(bound)) <==> id == bound
  {
    if InBounds(id, Some(bound), Some(bound)) && id != bound {
      LexLessTransitive(bound, id, bound);
      LexLessIrreflexive(bound);
    }
  }

  /** `alter table ... add if not exists col text`: a new column starts NULL;
      an existing one keeps its values. */
  function WithColumn(row: DestRow, col: string): (r: DestRow)
    ensures r.geom == row.geom && col in r.columns
    ensures r.columns.Keys == row.columns.Keys + {col}
    ensures forall c :: c in row.columns ==> r.columns[c] == row.columns[c]
    ensures col !in row.columns ==> r.columns[col].None?
  {
    if col in row.columns then row else row.(columns := row.columns[col := None])
  }

  /** The source id a destination row is updated with, if any. */
  function MatchFor(id: string, row: DestRow, srcs: seq<SrcRow>, sp: Spatial,
                    rowIdMin: Option<string>, rowIdMax: Option<string>): Option<string>
  {
    if !InBounds(id, rowIdMin, rowIdMax) then None
    else match BestSource(srcs, row.geom, sp)
      case None => None
      case Some(s) => Some(s.id)
  }

  /** One destination row after the statement: the column added, then set
      when the row is matched. */
  function CrosswalkedRow(id: string, row: DestRow, newCol: string, srcs: seq<SrcRow>, sp: Spatial,
                          rowIdMin: Option<string>, rowIdMax: Option<string>): DestRow
  {
    var widened := WithColumn(row, newCol);
    match MatchFor(id, row, srcs, sp, rowIdMin, rowIdMax)
    case None => widened
    case Some(s) => widened.(columns := widened.columns[newCol := Some(s)])
  }

  /** The destination table after the statement: nothing but the new column
      changes, and every row has the column after. */
  function Crosswalked(rows: map<string, DestRow>, newCol: string, srcs: seq<SrcRow>, sp: Spatial,
                       rowIdMin: Option<string>, rowIdMax: Option<string>): (out: map<string, DestRow>)
    ensures out.Keys == rows.Keys
    ensures forall id :: id in rows ==>
      && out[id].geom == rows[id].geom
      && out[id].columns.Keys == rows[id].columns.Keys + {newCol}
      && forall c :: c in rows[id].columns && c != newCol ==> out[id].columns[c] == rows[id].columns[c]
  {
    map id | id in rows :: CrosswalkedRow(id, rows[id], newCol, srcs, sp, rowIdMin, rowIdMax)
  }

  /** A row in range with a qualifying source gets the id of a source of
      largest overlap among those that qualify. */
  lemma CrosswalkPicksLargestOverlap(rows: map<string, DestRow>, newCol: string, srcs: seq<SrcRow>, sp: Spatial,
                                     rowIdMin: Option<string>, rowIdMax: Option<string>, id: string)
    requires id in rows && InBounds(id, rowIdMin, rowIdMax)
    requires exists k :: 0 <= k < |srcs| && Qualifies(sp, srcs[k].geom, rows[id].geom)
    ensures var v := Crosswalked(rows, newCol, srcs, sp, rowIdMin, rowIdMax)[id].columns[newCol];
      v.Some? && exists k :: (0 <= k < |srcs| && srcs[k].id == v.value && Qualifies(sp, srcs[k].geom, rows[id].geom) &&
        forall j :: 0 <= j < |srcs| && Qualifies(sp, srcs[j].geom, rows[id].geom) ==>
          sp.overlapArea(srcs[j].geom, rows[id].geom) <= sp.overlapArea(srcs[k].geom, rows[id].geom))
  {
    var best := BestSource(srcs, rows[id].geom, sp);
    var k :| 0 <= k < |srcs| && srcs[k] == best.value;
  }

  /** A row out of range, or one that every source misses or merely touches,
      keeps its old value (NULL when the column is new). */
  lemma CrosswalkUnmatchedKept(rows: map<string, DestRow>, newCol: string, srcs: seq<SrcRow>, sp: Spatial,
                               rowIdMin: Option<string>, rowIdMax: Option<string>, id: string)
    requires id in rows
    requires !InBounds(id, rowIdMin, rowIdMax) ||
             forall k :: 0 <= k < |srcs| ==> !sp.intersects(srcs[k].geom, rows[id].geom) || sp.touches(srcs[k].geom, rows[id].geom)
    ensures Crosswalked(rows, newCol, srcs, sp, rowIdMin, rowIdMax)[id] == WithColumn(rows[id], newCol)
  {
    if InBounds(id, rowIdMin, rowIdMax) {
      assert forall k :: 0 <= k < |srcs| ==> !Qualifies(sp, srcs[k].geom, rows[id].geom);
    }
  }

  /** An empty bound is no bound: "" and None select the same rows. */
  lemma EmptyBoundIsNoBound(id: string, rowIdMin: Option<string>, rowIdMax: Option<string>)
    ensures InBounds(id, Some(""), rowIdMax) == InBounds(id, None, rowIdMax)
    ensures InBounds(id, rowIdMin, Some("")) == InBounds(id, rowIdMin, None)
    ensures InBounds(id, None, None)
  {
  }

  lemma CrosswalkedRowIdempotent(id: string, row: DestRow, newCol: string, srcs: seq<SrcRow>, sp: Spatial,
                                 rowIdMin: Option<string>, rowIdMax: Option<string>)
    ensures var once := CrosswalkedRow(id, row, newCol, srcs, sp, rowIdMin, rowIdMax);
      CrosswalkedRow(id, once, newCol, srcs, sp, rowIdMin, rowIdMax) == once
  {
    var once := CrosswalkedRow(id, row, newCol, srcs, sp, rowIdMin, rowIdMax);
    assert once.geom == row.geom;
    assert MatchFor(id, once, srcs, sp, rowIdMin, rowIdMax) == MatchFor(id, row, srcs, sp, rowIdMin, rowIdMax);
    assert WithColumn(once, newCol) == once;
  }

  /** Running the crosswalk a second time changes nothing more. */
  lemma CrosswalkIdempotent(rows: map<string, DestRow>, newCol: string, srcs: seq<SrcRow>, sp: Spatial,
                            rowIdMin: Option<string>, rowIdMax: Option<string>)
    ensures var once := Crosswalked(rows, newCol, srcs, sp, rowIdMin, rowIdMax);
      Crosswalked(once, newCol, srcs, sp, rowIdMin, rowIdMax) == once
  {
    var once := Crosswalked(rows, newCol, srcs, sp, rowIdMin, rowIdMax);
    var twice := Crosswalked(once, newCol, srcs, sp, rowIdMin, rowIdMax);
    forall id | id in rows
      ensures twice[id] == once[id]
    {
      CrosswalkedRowIdempotent(id, rows[id], newCol, srcs, sp, rowIdMin, rowIdMax);
    }
  }

  /** The destination table, keyed by dest_row_id. */
  class DestTable {
    var rows: map<string, DestRow>

    constructor (rows: map<string, DestRow>)
      ensures this.rows == rows
    {
      this.rows := rows;
    }

    /** add_highest_overlap_crosswalk against the source rows `srcs`. */
    method AddHighestOverlapCrosswalk(newCol: string, srcs: seq<SrcRow>, sp: Spatial,
                                      rowIdMin: Option<string>, rowIdMax: Option<string>)
      modifies this
      ensures rows == Crosswalked(old(rows), newCol, srcs, sp, rowIdMin, rowIdMax)
    {
      rows := Crosswalked(rows, newCol, srcs, sp, rowIdMin, rowIdMax);
    }
  }
}
