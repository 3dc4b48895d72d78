/** The data frame of one fetch: one column object per result column (src/DbDataFrame.cpp). */
module ResultDataFrame {
  import opened Values
  import opened ColumnSpec
  import opened ResultColumn

  type Row = seq<Cell>

  /** Column `j` of a list of rows. */
  function ColumnCells(rows: seq<Row>, j: nat): (cells: seq<Cell>)
    requires forall r :: r in rows ==> j < |r|
    ensures |cells| == |rows|
  {
    seq(|rows|, k requires 0 <= k < |rows| => rows[k][j])
  }

  predicate Wide(rows: seq<Row>, ncols: nat) {
    forall r :: r in rows ==> |r| == ncols
  }

  lemma ColumnCellsSnoc(rows: seq<Row>, row: Row, j: nat)
    requires j < |row| && forall r :: r in rows ==> j < |r|
    ensures ColumnCells(rows + [row], j) == ColumnCells(rows, j) + [row[j]]
  {}

  /** No column object can change another one. */
  ghost predicate Apart(cols: seq<DbColumn>)
    reads cols
  {
    forall j, k :: 0 <= j < |cols| && 0 <= k < |cols| && j != k ==>
                     cols[j] != cols[k] && cols[j] !in cols[k].repr && cols[j].repr !! cols[k].repr
  }

  ghost predicate AllValid(cols: seq<DbColumn>)
    reads cols, set c, o | c in cols && o in c.repr :: o
  {
    forall j :: 0 <= j < |cols| ==> cols[j].Valid()
  }

  /** Appends a cell to one column and leaves the others alone. */
  method SetOne(cols: seq<DbColumn>, j: nat, c: Cell)
    requires j < |cols| && AllValid(cols) && Apart(cols)
    modifies cols[j], cols[j].repr
    ensures AllValid(cols) && Apart(cols)
    ensures fresh(cols[j].repr - old(cols[j].repr))
    ensures cols[j].rows == old(cols[j].rows) + [c] && cols[j].n == old(cols[j].n)
    ensures forall k :: 0 <= k < |cols| && k != j ==> unchanged(cols[k])
  {
    hide DbColumn.Valid;
    cols[j].SetColValue(c);
  }

  /** Everything the columns own lies in `repr`. */
  ghost predicate OwnedBy(cols: seq<DbColumn>, repr: set<object>)
    reads cols
  {
    forall j :: 0 <= j < |cols| ==> cols[j] in repr && cols[j].repr <= repr
  }

  /** Appends a row, column by column. */
  method SetAll(cols: seq<DbColumn>, row: Row, ghost repr: set<object>) returns (ghost grown: set<object>)
    requires |row| == |cols| && AllValid(cols) && Apart(cols) && OwnedBy(cols, repr)
    modifies repr
    ensures AllValid(cols) && Apart(cols) && OwnedBy(cols, grown)
    ensures repr <= grown && fresh(grown - repr)
    ensures forall j :: 0 <= j < |cols| ==> cols[j].rows == old(cols[j].rows) + [row[j]]
  {
    hide DbColumn.Valid;
    grown := repr;
    var j := 0;
    while j < |cols|
      invariant 0 <= j <= |cols| && AllValid(cols) && Apart(cols) && OwnedBy(cols, grown)
      invariant repr <= grown && fresh(grown - repr)
      invariant forall k :: 0 <= k < j ==> cols[k].rows == old(cols[k].rows) + [row[k]]
      invariant forall k :: j <= k < |cols| ==> cols[k].rows == old(cols[k].rows)
    {
      SetOne(cols, j, row[j]);
      grown := grown + cols[j].repr;
      j := j + 1;
    }
  }

  /** Trims all columns to the rows counted. */
  method FinalizeAll(cols: seq<DbColumn>, n: nat)
    requires AllValid(cols) && Apart(cols) && forall j :: 0 <= j < |cols| ==> n <= |cols[j].rows|
    modifies cols
    ensures AllValid(cols) && Apart(cols)
    ensures forall j :: 0 <= j < |cols| ==> cols[j].n == n
    ensures forall j :: 0 <= j < |cols| ==> cols[j].rows == old(cols[j].rows) && cols[j].repr == old(cols[j].repr)
  {
    hide DbColumn.Valid;
    var j := 0;
    while j < |cols|
      invariant 0 <= j <= |cols| && AllValid(cols) && Apart(cols)
      invariant forall k :: 0 <= k < j ==> cols[k].n == n
      invariant forall k :: 0 <= k < |cols| ==> cols[k].rows == old(cols[k].rows) && cols[k].repr == old(cols[k].repr)
    {
      cols[j].Finalize(n);
      j := j + 1;
    }
  }

  /** The finished columns, the types they have and the types each would warn about. */
  datatype Fetched = Fetched(columns: seq<seq<Slot>>, types: seq<DataType>, conflicts: seq<set<DataType>>)

  /** What one column of a fetch must come to: its slots, its type, its warning. */
  ghost predicate ColumnResult(src: Source, t: DataType, cells: seq<Cell>, n: nat, f: Fetched, j: nat)
    requires src.Valid() && n <= |cells| && j < |f.columns| && j < |f.types| && j < |f.conflicts|
  {
    && f.columns[j] == Column(src, t, cells)[..n]
    && f.types[j] == Resolve(src, TypeAfter(src, t, cells))
    && f.conflicts[j] == Conflicts(Seen(src, cells), f.types[j])
  }

  /** The columns that a look at `rows` gives, of which the first `n` are handed out. */
  ghost predicate FetchResult(sources: seq<Source>, types: seq<DataType>, rows: seq<Row>, n: nat, f: Fetched)
    requires |types| == |sources| && Wide(rows, |sources|) && n <= |rows|
    requires forall s :: s in sources ==> s.Valid()
  {
    && |f.columns| == |f.types| == |f.conflicts| == |sources|
    && forall j :: 0 <= j < |sources| ==>
                     ColumnResult(sources[j], types[j], ColumnCells(rows, j), n, f, j)
  }

  /** Reads off all columns. */
  method ReadAll(cols: seq<DbColumn>, n: nat) returns (f: Fetched)
    requires AllValid(cols) && forall j :: 0 <= j < |cols| ==> cols[j].n == n
    ensures |f.columns| == |f.types| == |f.conflicts| == |cols|
    ensures forall j :: 0 <= j < |cols| ==>
                          && cols[j].source.Valid() && n <= |cols[j].rows|
                          && ColumnResult(cols[j].source, cols[j].initial, cols[j].rows, n, f, j)
  {
    hide DbColumn.Valid;
    f := Fetched([], [], []);
    var j := 0;
    while j < |cols|
      invariant 0 <= j <= |cols| && |f.columns| == |f.types| == |f.conflicts| == j
      invariant forall k :: 0 <= k < j ==>
                              && cols[k].source.Valid() && n <= |cols[k].rows|
                              && ColumnResult(cols[k].source, cols[k].initial, cols[k].rows, n, f, k)
    {
      var before := f;
      f := ReadOne(cols[j], f);
      j := j + 1;
    }
  }

  /** Reads off one more column. */
  method ReadOne(col: DbColumn, before: Fetched) returns (f: Fetched)
    requires col.Valid() && |before.columns| == |before.types| == |before.conflicts|
    ensures |f.columns| == |f.types| == |f.conflicts| == |before.columns| + 1
    ensures before.columns <= f.columns && before.types <= f.types && before.conflicts <= f.conflicts
    ensures col.source.Valid() && col.n <= |col.rows|
    ensures ColumnResult(col.source, col.initial, col.rows, col.n, f, |before.columns|)
  {
    var x := col.ToSexp();
    var dt, conflicts := col.GetType(), col.WarnTypeConflicts();
    f := Fetched(before.columns + [x[..]], before.types + [dt], before.conflicts + [conflicts]);
  }

  class DbDataFrame {
    const nMax: int
    const sources: seq<Source>
    ghost const types: seq<DataType>
    const data: seq<DbColumn>
    var i: nat
    ghost var rows: seq<Row>
    ghost var repr: set<object>

    /** The columns are separate objects of this frame, made for its sources and types. */
    ghost predicate Structure()
      reads this, repr
    {
      && this !in repr && |data| == |sources| == |types|
      && (forall c :: c in data ==> c in repr)
      && OwnedBy(data, repr) && AllValid(data) && Apart(data)
      && (forall j :: 0 <= j < |data| ==>
            data[j].source == sources[j] && data[j].nMax == nMax && data[j].initial == types[j])
    }

    /** Column `j` holds the cells of column `j` of all rows set so far. */
    ghost predicate Valid()
      reads this, repr
    {
      && Structure() && i <= |rows|
      && Wide(rows, |sources|) && (forall s :: s in sources ==> s.Valid())
      && forall j :: 0 <= j < |data| ==> data[j].rows == ColumnCells(rows, j)
    }

    constructor (sources: seq<Source>, nMax: int, types: seq<DataType>)
      requires |types| == |sources| && forall s :: s in sources ==> s.Valid()
      ensures Valid() && fresh(repr) && i == 0 && rows == []
      ensures this.sources == sources && this.nMax == nMax && this.types == types
    {
      hide DbColumn.Valid;
      var cols: seq<DbColumn> := [];
      ghost var all: set<object> := {};
      var j := 0;
      while j < |types|
        invariant 0 <= j <= |types| && |cols| == j
        invariant fresh(all) && forall c :: c in cols ==> c in all && c.repr <= all && fresh(c)
        invariant AllValid(cols) && Apart(cols)
        invariant forall k :: 0 <= k < j ==>
                    && cols[k].source == sources[k] && cols[k].nMax == nMax
                    && cols[k].initial == types[k] && cols[k].rows == []
      {
        var c := new DbColumn(types[j], nMax, sources[j]);
        cols := cols + [c];
        all := all + {c} + c.repr;
        j := j + 1;
      }
      this.sources, this.nMax, this.types := sources, nMax, types;
      data, i, rows, repr := cols, 0, [], all;
    }

    /** Appends the current row. */
    method SetColValues(row: Row)
      requires Valid() && |row| == |sources|
      modifies this, repr
      ensures Valid() && fresh(repr - old(repr)) && rows == old(rows) + [row] && i == old(i)
    {
      hide DbColumn.Valid, AllValid, Apart;
      ghost var before := rows;
      ghost var grown := SetAll(data, row, repr);
      repr, rows := grown, rows + [row];
      forall j | 0 <= j < |data| ensures data[j].rows == ColumnCells(rows, j) {
        ColumnCellsSnoc(before, row, j);
      }
    }

    /** Counts the row; whether the limit allows another one. */
    method Advance() returns (more: bool)
      requires Valid() && i < |rows|
      modifies `i
      ensures Valid() && i == old(i) + 1
      ensures more <==> nMax < 0 || i < nMax
    {
      hide DbColumn.Valid;
      i := i + 1;
      more := nMax < 0 || i < nMax;
    }

    /** Trims the columns to the rows counted. */
    method FinalizeCols()
      requires Valid()
      modifies repr
      ensures Valid() && rows == old(rows) && i == old(i)
      ensures forall j :: 0 <= j < |data| ==> data[j].n == i
    {
      hide DbColumn.Valid;
      FinalizeAll(data, i);
    }

    /** Trims the columns and returns them. */
    method GetData() returns (f: Fetched)
      requires Valid()
      modifies repr
      ensures Valid() && rows == old(rows) && i == old(i)
      ensures FetchResult(sources, types, rows, i, f)
    {
      hide DbColumn.Valid, ColumnResult, ColumnCells, Apart, OwnedBy;
      FinalizeCols();
      f := ReadAll(data, i);
    }
  }
}
