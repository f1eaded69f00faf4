/**
 * The export flattener: every array-valued cell of every result row is rewritten
 * into one string, so that CSV, XML and JSON writers receive flat rows.
 * `json_encode` is PHP's own and is passed in as `json`.
 */
module Flattener {
  import opened PhpValues

  /** A result row: column name to cell value, in column order. */
  type Row = Entries

  /**
   * One cell after flattening: an empty array becomes '', an array with a set
   * element at index 0 the comma-join of its elements, any other array its JSON
   * text; every other value is left as it is.
   */
  function FlattenCell(json: Value -> string, v: Value): (r: Value)
    ensures !r.Arr?
    ensures !v.Arr? ==> r == v
  {
    match v
    case Arr(e) =>
      if |e| == 0 then Str("")
      else if Lookup(e, Idx(0)) != Null then Str(Join(",", ValuesOf(e)))
      else Str(json(v))
    case _ => v
  }

  function FlattenRow(json: Value -> string, row: Row): Row
  {
    seq(|row|, j requires 0 <= j < |row| => (row[j].0, FlattenCell(json, row[j].1)))
  }

  /** Every row with every cell flattened. */
  function Flattened(json: Value -> string, rows: seq<Row>): seq<Row>
  {
    seq(|rows|, i requires 0 <= i < |rows| => FlattenRow(json, rows[i]))
  }

  /** No cell of any row is an array. */
  predicate IsFlat(rows: seq<Row>)
  {
    forall i, j :: 0 <= i < |rows| && 0 <= j < |rows[i]| ==> !rows[i][j].1.Arr?
  }

  /**
   * The nested loops that overwrite `$rows[$i][$key]` for every array-valued cell
   * (lines 1126-1153). Rows are PHP arrays, so their keys are unique.
   */
  method FlattenRows(json: Value -> string, rows0: seq<Row>) returns (rows: seq<Row>)
    requires forall i :: 0 <= i < |rows0| ==> UniqueKeys(rows0[i])
    ensures |rows| == |rows0|
    ensures forall i :: 0 <= i < |rows| ==> KeysOf(rows[i]) == KeysOf(rows0[i])
    ensures forall i, j :: 0 <= i < |rows| && 0 <= j < |rows0[i]| ==>
      |rows[i]| == |rows0[i]| && rows[i][j].1 == FlattenCell(json, rows0[i][j].1)
    ensures rows == Flattened(json, rows0)
  {
    rows := rows0;
    var i := 0;
    while i < |rows0|
      invariant 0 <= i <= |rows0| && |rows| == |rows0|
      invariant forall m :: 0 <= m < i ==> rows[m] == FlattenRow(json, rows0[m])
      invariant forall m :: i <= m < |rows0| ==> rows[m] == rows0[m]
    {
      var row := rows0[i];
      var j := 0;
      while j < |row|
        invariant 0 <= j <= |row| && |rows| == |rows0|
        invariant forall m :: 0 <= m < i ==> rows[m] == FlattenRow(json, rows0[m])
        invariant forall m :: i < m < |rows0| ==> rows[m] == rows0[m]
        invariant |rows[i]| == |row|
        invariant forall n :: 0 <= n < |row| ==> rows[i][n].0 == row[n].0
        invariant forall n :: 0 <= n < j ==> rows[i][n].1 == FlattenCell(json, row[n].1)
        invariant forall n :: j <= n < |row| ==> rows[i][n].1 == row[n].1
      {
        var key := row[j].0;
        var value := row[j].1;
        if value.Arr? {
          var cell;
          if |value.entries| == 0 {
            cell := Str("");
          } else if Lookup(value.entries, Idx(0)) != Null {
            cell := Str(Join(",", ValuesOf(value.entries)));
          } else {
            cell := Str(json(value));
          }
          assert UniqueKeys(rows[i]) by {
            forall a, b | 0 <= a < b < |rows[i]| ensures rows[i][a].0 != rows[i][b].0 {
              assert rows[i][a].0 == row[a].0 && rows[i][b].0 == row[b].0;
            }
          }
          PutAt(rows[i], j, cell);
          rows := rows[i := Put(rows[i], key, cell)];
        }
        j := j + 1;
      }
      assert rows[i] == FlattenRow(json, row);
      i := i + 1;
    }
  }

  /** Flattening keeps the number of rows, each row's key sequence, and every non-array cell. */
  lemma FlattenedShape(json: Value -> string, rows: seq<Row>)
    ensures |Flattened(json, rows)| == |rows|
    ensures forall i :: 0 <= i < |rows| ==> KeysOf(Flattened(json, rows)[i]) == KeysOf(rows[i])
    ensures forall i, j :: 0 <= i < |rows| && 0 <= j < |rows[i]| && !rows[i][j].1.Arr? ==>
      Flattened(json, rows)[i][j].1 == rows[i][j].1
    ensures IsFlat(Flattened(json, rows))
  {
    forall i | 0 <= i < |rows| ensures KeysOf(Flattened(json, rows)[i]) == KeysOf(rows[i]) {
      assert Flattened(json, rows)[i] == FlattenRow(json, rows[i]);
    }
  }

  /** Flattening leaves flat rows as they are. */
  lemma FlatRowsAreFixed(json: Value -> string, rows: seq<Row>)
    requires IsFlat(rows)
    ensures Flattened(json, rows) == rows
  {
    forall i | 0 <= i < |rows| ensures FlattenRow(json, rows[i]) == rows[i] {
      var r := rows[i];
      assert forall j :: 0 <= j < |r| ==> !r[j].1.Arr?;
    }
  }

  /** A second pass of the flattener changes nothing. */
  lemma FlattenIdempotent(json: Value -> string, rows: seq<Row>)
    ensures Flattened(json, Flattened(json, rows)) == Flattened(json, rows)
  {
    FlattenedShape(json, rows);
    FlatRowsAreFixed(json, Flattened(json, rows));
  }
}
