/**
 A result set: a prepared statement stepped one row ahead of what is fetched, over all
 parameter groups that were bound (src/SqliteResultImpl.cpp).
 */
module ResultSet {
  import opened Wrappers
  import opened Values
  import opened ColumnSpec
  import opened FetchLaws
  import opened ResultColumn
  import opened ResultDataFrame
  import opened Binding

  /** The rows that executing the statement for a parameter group returns. */
  type Query = (nat, seq<Cell>) -> seq<Row>

  /** The values bound for group `g`. */
  function GroupValues(params: seq<seq<Cell>>, groups: nat, g: nat): seq<Cell>
    requires Rectangular(params, groups) && g < groups
  {
    seq(|params|, j requires 0 <= j < |params| => params[j][g])
  }

  /** All rows of the groups from `g` on, in order. */
  function RowsFrom(query: Query, params: seq<seq<Cell>>, groups: nat, g: nat): seq<Row>
    requires Rectangular(params, groups)
    decreases groups - g
  {
    if g >= groups then []
    else query(g, GroupValues(params, groups, g)) + RowsFrom(query, params, groups, g + 1)
  }

  /** The rows of a query for a list of value lists, one for each group. */
  function RowsOf(query: Query, bound: seq<seq<Cell>>, g: nat): seq<Row>
    decreases |bound| - g
  {
    if g >= |bound| then [] else query(g, bound[g]) + RowsOf(query, bound, g + 1)
  }

  /** `bound` lists for each group the value that every parameter has for it. */
  predicate GroupWise(params: seq<seq<Cell>>, groups: nat, bound: seq<seq<Cell>>)
    requires Rectangular(params, groups)
  {
    && |bound| == groups
    && forall g :: 0 <= g < groups ==>
                     |bound[g]| == |params| && forall j :: 0 <= j < |params| ==> bound[g][j] == params[j][g]
  }

  /** Binding all groups at once gives, in order, the rows of each group with its own values. */
  lemma {:induction false} BoundGroupWise(query: Query, params: seq<seq<Cell>>, groups: nat,
                                          bound: seq<seq<Cell>>, g: nat)
    requires Rectangular(params, groups) && GroupWise(params, groups, bound)
    ensures RowsFrom(query, params, groups, g) == RowsOf(query, bound, g)
    decreases groups - g
  {
    if g < groups {
      assert GroupValues(params, groups, g) == bound[g];
      BoundGroupWise(query, params, groups, bound, g + 1);
    }
  }

  /** How many rows the groups before `g` have. */
  function RowCount(query: Query, params: seq<seq<Cell>>, groups: nat, g: nat): nat
    requires Rectangular(params, groups) && g <= groups
  {
    if g == 0 then 0
    else RowCount(query, params, groups, g - 1) + |query(g - 1, GroupValues(params, groups, g - 1))|
  }

  /** The rows of every group follow those of the groups before it; groups without rows take no room. */
  lemma {:induction false} GroupsInOrder(query: Query, params: seq<seq<Cell>>, groups: nat, g: nat, values: seq<Cell>)
    requires Rectangular(params, groups) && g < groups
    requires |values| == |params| && forall j :: 0 <= j < |params| ==> values[j] == params[j][g]
    ensures var all, start := RowsFrom(query, params, groups, 0), RowCount(query, params, groups, g);
            var rows := query(g, values);
            && start + |rows| <= |all| && all[start..start + |rows|] == rows
            && RowCount(query, params, groups, g + 1) == start + |rows|
    ensures |RowsFrom(query, params, groups, 0)| == RowCount(query, params, groups, groups)
  {
    assert values == GroupValues(params, groups, g);
    GroupRows(query, params, groups, 0, g);
    RowsCounted(query, params, groups, 0);
  }

  lemma {:induction false} RowsCounted(query: Query, params: seq<seq<Cell>>, groups: nat, h: nat)
    requires Rectangular(params, groups) && h <= groups
    ensures RowCount(query, params, groups, h) + |RowsFrom(query, params, groups, h)| ==
            RowCount(query, params, groups, groups)
    decreases groups - h
  {
    if h < groups {
      RowsCounted(query, params, groups, h + 1);
    }
  }

  lemma {:induction false} GroupRows(query: Query, params: seq<seq<Cell>>, groups: nat, h: nat, g: nat)
    requires Rectangular(params, groups) && h <= g < groups
    ensures var from := RowsFrom(query, params, groups, h);
            var start := RowCount(query, params, groups, g) - RowCount(query, params, groups, h);
            var rows := query(g, GroupValues(params, groups, g));
            0 <= start <= start + |rows| <= |from| && from[start..start + |rows|] == rows
    decreases g - h
  {
    if h < g {
      GroupRows(query, params, groups, h + 1, g);
      var first, rest := query(h, GroupValues(params, groups, h)), RowsFrom(query, params, groups, h + 1);
      var start := RowCount(query, params, groups, g) - RowCount(query, params, groups, h + 1);
      var n := |query(g, GroupValues(params, groups, g))|;
      assert (first + rest)[|first| + start..|first| + start + n] == rest[start..start + n];
    }
  }

  /** Where a fetch of `n` rows ends; a negative `n` asks for all. */
  function EndAfter(pos: nat, n: int, total: nat): (end: nat)
    requires pos <= total
    ensures pos <= end <= total
    ensures end < total ==> end - pos == n
    ensures n >= 0 ==> end - pos <= n
  {
    if n < 0 || pos + n >= total then total else pos + n
  }

  datatype FetchError = NotBound

  /** Every execution returns rows with one cell for each column. */
  ghost predicate WideQuery(query: Query, ncols: nat) {
    forall g: nat, values :: Wide(query(g, values), ncols)
  }

  lemma {:induction false} RowsFromWide(query: Query, params: seq<seq<Cell>>, groups: nat, g: nat, ncols: nat)
    requires Rectangular(params, groups) && WideQuery(query, ncols)
    ensures Wide(RowsFrom(query, params, groups, g), ncols)
    decreases groups - g
  {
    if g < groups {
      RowsFromWide(query, params, groups, g + 1, ncols);
    }
  }

  /** The rows that `dbFetch(n)` looks at; with `n = 0` it peeks at the next one, if there is one. */
  function Looked(all: seq<Row>, pos: nat, n: int): (rows: seq<Row>)
    requires pos <= |all|
    ensures forall r :: r in rows ==> r in all
  {
    all[pos..EndAfter(pos, if n == 0 then 1 else n, |all|)]
  }

  /** A peek sees exactly the next row, and a fetch the next `n` or all that remain. */
  lemma LookedMeans(all: seq<Row>, pos: nat, n: int)
    requires pos <= |all|
    ensures n == 0 ==> Looked(all, pos, n) == if pos == |all| then [] else [all[pos]]
    ensures n < 0 || n > |all| - pos ==> Looked(all, pos, n) == all[pos..]
    ensures 0 < n <= |all| - pos ==> Looked(all, pos, n) == all[pos..][..n]
  {}

  /** typeof() of the R vector that has such slots. */
  function VectorType(s: Slot): string {
    match s
    case LogicalSlot(_) => "logical"
    case IntSlot(_) => "integer"
    case Int64Slot(_) | RealSlot(_) => "double"  // integer64 is a class on top of double
    case StringSlot(_) => "character"
    case ListSlot(_) => "list"
  }

  /** The reported type is that of the column's vector, unless it is a date or time class. */
  lemma TypeNameMeans(dt: DataType, s: Slot)
    requires HasType(s, dt)
    ensures TypeName(dt) == (if dt == Date then "Date" else if dt == DateTime then "POSIXct"
                             else if dt == Time then "hms" else VectorType(s))
  {}

  /** The name under which a column type is reported; without a class it is that of the R vector. */
  function TypeName(dt: DataType): string {
    match dt
    case Date => "Date"
    case DateTime => "POSIXct"
    case Time => "hms"
    case Unknown => "NULL"
    case Bool => "logical"
    case Int => "integer"
    case Int64 | Real | DateTimeTz => "double"
    case String => "character"
    case Blob => "list"
  }

  method TypeNames(types: seq<DataType>) returns (names: seq<string>)
    ensures |names| == |types| && forall j :: 0 <= j < |types| ==> names[j] == TypeName(types[j])
  {
    names := [];
    var j := 0;
    while j < |types|
      invariant 0 <= j <= |types| && |names| == j
      invariant forall k :: 0 <= k < j ==> names[k] == TypeName(types[k])
    {
      names := names + [TypeName(types[j])];
      j := j + 1;
    }
  }

  /** The types that a fetched frame has are those remembered. */
  lemma FrameTypes(sources: seq<Source>, types: seq<DataType>, rows: seq<Row>, n: nat, f: Fetched)
    requires |types| == |sources| && Wide(rows, |sources|) && n <= |rows| && forall s :: s in sources ==> s.Valid()
    requires FetchResult(sources, types, rows, n, f)
    ensures |f.types| == |sources|
    ensures forall j :: 0 <= j < |sources| ==> f.types[j] == Remembered(sources[j], types[j], ColumnCells(rows, j))
  {
    forall j | 0 <= j < |sources| ensures f.types[j] == Remembered(sources[j], types[j], ColumnCells(rows, j)) {
      assert ColumnResult(sources[j], types[j], ColumnCells(rows, j), n, f, j);
    }
  }

  class SqliteResultImpl {
    const nparams: nat
    const sources: seq<Source>
    const query: Query
    var complete: bool
    var ready: bool
    var nrows: nat
    var params: seq<seq<Cell>>
    var group: nat
    var groups: nat
    var types: seq<DataType>
    // the prepared statement: the rows of its current execution, and how many it stepped to
    var result: seq<Row>
    var cursor: nat
    ghost var all: seq<Row>  // every row of the current binding

    /** What never changes: rows have one cell for each column, parameters one value for each group. */
    ghost predicate Shape()
      reads `params, `groups, `result
    {
      && Rectangular(params, groups)
      && (forall s :: s in sources ==> s.Valid())
      && WideQuery(query, |sources|) && Wide(result, |sources|)
    }

    /** The rows that further steps will reach. */
    ghost function Ahead(): seq<Row>
      requires Shape() && cursor <= |result|
      reads `params, `groups, `group, `result, `cursor
    {
      result[cursor..] + RowsFrom(query, params, groups, group + 1)
    }

    lemma AheadWide()
      requires Shape() && cursor <= |result|
      ensures Wide(Ahead(), |sources|)
    {
      RowsFromWide(query, params, groups, group + 1, |sources|);
    }

    /**
     A bound result that is not complete stands on the first row not yet handed out, and it
     is complete exactly when there is none.
     */
    ghost predicate Standing()
      reads `complete, `ready, `nrows, `params, `group, `groups, `result, `cursor, `all
    {
      && Shape() && cursor <= |result|
      && (!ready ==> !complete && cursor == 0)
      && (ready ==>
            && nrows <= |all| && Wide(all, |sources|)
            && (complete <==> nrows == |all|)
            && (!complete ==> cursor > 0 && all[nrows..] == [result[cursor - 1]] + Ahead()))
    }

    ghost predicate Valid()
      reads this
    {
      |types| == |sources| && Standing()
    }

    constructor (nparams: nat, sources: seq<Source>, query: Query)
      requires forall s :: s in sources ==> s.Valid()
      requires WideQuery(query, |sources|)
      ensures Valid() && this.sources == sources && this.query == query && this.nparams == nparams
      ensures ready <==> nparams == 0
      ensures nparams == 0 ==> all == query(0, []) && nrows == 0
      ensures types == seq(|sources|, _ => Unknown)
    {
      this.nparams, this.sources, this.query := nparams, sources, query;
      complete, ready, nrows, params, group, groups := false, false, 0, [], 0, 0;
      types := seq(|sources|, _ => Unknown);
      result, cursor, all := if nparams == 0 then query(0, []) else [], 0, [];
      new;
      if nparams == 0 {
        AfterBind(true);
      }
    }

    /** Starts a binding: resets the flags and steps to the first row, if there can be one. */
    method AfterBind(paramsHaveRows: bool)
      requires Shape() && cursor <= |result|
      modifies `complete, `ready, `nrows, `group, `result, `cursor, `all
      ensures Standing() && ready && nrows == 0
      ensures all == if paramsHaveRows then old(Ahead()) else []
    {
      hide RowsFrom, Rectangular, WideQuery;
      AheadWide();
      all := if paramsHaveRows then Ahead() else [];
      ready, nrows, complete := true, 0, !paramsHaveRows;
      if paramsHaveRows {
        Step();
      }
    }

    /** Steps the statement, over empty groups, to the next row or to completion. */
    method Step()
      requires Shape() && cursor <= |result| && !complete
      modifies `complete, `group, `result, `cursor
      ensures Shape() && cursor <= |result|
      ensures complete <==> old(Ahead()) == []
      ensures !complete ==> cursor > 0 && old(Ahead()) == [result[cursor - 1]] + Ahead()
    {
      ghost var ahead := Ahead();
      var again := true;
      while again
        invariant Shape() && cursor <= |result|
        invariant again ==> !complete && Ahead() == ahead
        invariant !again ==> (complete <==> ahead == [])
        invariant !again && !complete ==> cursor > 0 && ahead == [result[cursor - 1]] + Ahead()
        decreases again, if group < groups then groups - group else 0
      {
        again := StepRun();
      }
    }

    /** One sqlite3_step(); whether to step again, in the next group. */
    method StepRun() returns (again: bool)
      requires Shape() && cursor <= |result| && !complete
      modifies `complete, `group, `result, `cursor
      ensures Shape() && cursor <= |result|
      ensures again ==> !complete && Ahead() == old(Ahead()) && old(group) < group < groups
      ensures !again && complete ==> old(Ahead()) == []
      ensures !again && !complete ==> cursor > 0 && old(Ahead()) == [result[cursor - 1]] + Ahead()
    {
      if cursor < |result| {
        assert result[cursor..] == [result[cursor]] + result[cursor + 1..];
        cursor := cursor + 1;
        again := false;
      } else {
        again := StepDone();
      }
    }

    /** The execution is done: go on to the next parameter group. */
    method StepDone() returns (more: bool)
      requires Shape() && cursor == |result| && !complete
      modifies `complete, `group, `result, `cursor
      ensures Shape() && cursor <= |result|
      ensures more ==> !complete && Ahead() == old(Ahead()) && old(group) < group < groups
      ensures !more ==> complete && old(Ahead()) == []
    {
      group := group + 1;
      more := BindRow();
      if !more {
        complete := true;
      }
    }

    /** Binds the values of the current group, if there is one; each access is in range. */
    method BindRow() returns (more: bool)
      requires Shape()
      modifies `result, `cursor
      ensures Shape() && (more <==> group < groups)
      ensures more ==> cursor == 0
      ensures more ==>
                forall values ::
                  |values| == |params| && (forall j :: 0 <= j < |params| ==> values[j] == params[j][group]) ==>
                    result == query(group, values)
      ensures !more ==> result == old(result) && cursor == old(cursor)
      ensures RowsFrom(query, params, groups, group) == if more then Ahead() else []
    {
      if group >= groups {
        return false;
      }
      ghost var bound := GroupValues(params, groups, group);
      assert forall values ::
          |values| == |params| && (forall j :: 0 <= j < |params| ==> values[j] == params[j][group]) ==>
            values == bound;
      result, cursor := query(group, GroupValues(params, groups, group)), 0;
      more := true;
      assert result[cursor..] == result;
    }

    /** dbBind(): checks the parameters and starts over with their first group. */
    method Bind(params: seq<seq<Cell>>) returns (r: Result<(), BindError>)
      requires Valid()
      modifies this
      ensures Valid() && types == old(types)
      ensures r.Failure? ==> unchanged(this)
      ensures r.Success? <==>
              nparams > 0 && |params| == nparams && Rectangular(params, |params[0]|)
      ensures r.Success? ==> ready && nrows == 0 && all == RowsFrom(query, params, |params[0]|, 0)
    {
      hide Standing;
      var equal := ValidateParams(params);
      if !equal {
        return Failure(UnequalLengths);
      }
      if nparams == 0 {
        return Failure(NoParametersExpected);
      }
      if |params| != nparams {
        return Failure(WrongParameterCount);
      }
      Start(params);
      r := Success(());
    }

    /** Starts with the first group of parameters that passed the checks. */
    method Start(params: seq<seq<Cell>>)
      requires Standing() && params != [] && Rectangular(params, |params[0]|)
      modifies `complete, `ready, `nrows, `params, `group, `groups, `result, `cursor, `all
      ensures Standing() && ready && nrows == 0
      ensures all == RowsFrom(query, params, |params[0]|, 0)
    {
      hide RowsFrom, WideQuery, Wide;
      this.params := params;
      groups, group := |params[0]|, 0;
      var hasParams := BindRow();
      AfterBind(hasParams);
    }

    /** dbFetch(): the next `nMax` rows, or all that remain; for 0 only the columns. */
    method Fetch(nMax: int) returns (r: Result<Fetched, FetchError>)
      requires Valid()
      modifies this
      ensures Valid()
      ensures r.Failure? <==> !old(ready)
      ensures r.Failure? ==> unchanged(this)
      ensures r.Success? ==>
                && ready && all == old(all) && types == r.value.types
                && nrows == EndAfter(old(nrows), nMax, |all|)
                && FetchResult(sources, old(types), Looked(all, old(nrows), nMax), nrows - old(nrows), r.value)
    {
      if !ready {
        return Failure(NotBound);
      }
      var out;
      if nMax != 0 {
        out := FetchRows(nMax);
      } else {
        out := PeekFirstRow();
      }
      r := Success(out);
    }

    /** dbColumnInfo(): the R types of the columns, after a peek at the next row. */
    method GetColumnInfo() returns (info: seq<string>)
      requires Valid()
      modifies `types
      ensures Valid() && |info| == |types| == |sources|
      ensures forall j :: 0 <= j < |sources| ==>
                            && types[j] == Remembered(sources[j], old(types[j]), ColumnCells(Next(), j))
                            && info[j] == TypeName(types[j])
    {
      hide DbColumn.Valid, Standing, Remembered, TypeName, Wide;
      StandingFacts();
      var f := PeekFirstRow();
      FrameTypes(sources, old(types), Next(), 0, f);
      info := TypeNames(types);
    }

    /** The row that the statement stands on; before the first step all its cells read as NULL. */
    function CurrentRow(): (row: Row)
      requires Standing()
      reads this
      ensures |row| == |sources|
      ensures ready && !complete ==> nrows < |all| && row == all[nrows]
    {
      if cursor == 0 then seq(|sources|, _ => Null) else result[cursor - 1]
    }

    /** What a peek looks at. */
    ghost function Next(): (rows: seq<Row>)
      requires Standing()
      reads this
      ensures Wide(rows, |sources|)
      ensures ready ==> rows == Looked(all, nrows, 0)
      ensures !ready ==> |rows| == 1 && forall j :: 0 <= j < |sources| ==> rows[0][j] == Null
    {
      if complete then [] else [CurrentRow()]
    }

    /** A zero-row result, whose types take the next row into account. */
    method PeekFirstRow() returns (f: Fetched)
      requires Valid()
      modifies `types
      ensures Valid() && types == f.types
      ensures FetchResult(sources, old(types), Next(), 0, f)
    {
      hide DbColumn.Valid, DbDataFrame.Valid, ColumnResult, Standing;
      StandingFacts();
      var data := new DbDataFrame(sources, 1, types);
      if !complete {
        data.SetColValues(CurrentRow());
        assert data.rows == [CurrentRow()];
      }
      f := data.GetData();
      types := f.types;
    }

    lemma StandingFacts()
      requires Standing()
      ensures ready ==> nrows <= |all| && Wide(all, |sources|) && (complete <==> nrows == |all|)
      ensures forall s :: s in sources ==> s.Valid()
    {}

    method FetchRows(nMax: int) returns (f: Fetched)
      requires Valid() && ready && nMax != 0
      modifies this
      ensures Valid() && ready && all == old(all) && types == f.types
      ensures nrows == EndAfter(old(nrows), nMax, |all|)
      ensures FetchResult(sources, old(types), all[old(nrows)..nrows], nrows - old(nrows), f)
    {
      hide DbColumn.Valid, DbDataFrame.Valid, ColumnResult, Standing;
      StandingFacts();
      var data := new DbDataFrame(sources, nMax, types);
      ghost var start := nrows;
      var more := true;
      while !complete && more
        invariant Standing() && ready && all == old(all) && types == old(types)
        invariant data.Valid() && fresh(data) && fresh(data.repr)
        invariant start <= nrows <= |all| && (complete <==> nrows == |all|)
        invariant data.rows == all[start..nrows] && data.i == nrows - start
        invariant if more then nMax < 0 || data.i < nMax else data.i == nMax
        decreases |all| - nrows
      {
        more := FetchRow(data);
        StandingFacts();
      }
      f := data.GetData();
      types := f.types;
    }

    /** One turn of the fetch loop: keeps the current row and steps to the next one. */
    method FetchRow(data: DbDataFrame) returns (more: bool)
      requires Standing() && ready && !complete
      requires data.Valid() && this !in data.repr && data.sources == sources && data.i == |data.rows|
      modifies `complete, `group, `result, `cursor, `nrows, data, data.repr
      ensures Standing() && ready && nrows == old(nrows) + 1
      ensures data.Valid() && fresh(data.repr - old(data.repr))
      ensures old(nrows) < |all| && data.rows == old(data.rows) + [all[old(nrows)]] && data.i == old(data.i) + 1
      ensures more <==> data.nMax < 0 || data.i < data.nMax
    {
      hide DbColumn.Valid, DbDataFrame.Valid, Standing;
      data.SetColValues(CurrentRow());
      StepOn();
      more := data.Advance();
    }

    /** Hands out the current row and steps to the next one. */
    method StepOn()
      requires Standing() && ready && !complete
      modifies `complete, `group, `result, `cursor, `nrows
      ensures Standing() && nrows == old(nrows) + 1
    {
      hide RowsFrom, Rectangular, WideQuery, Wide;
      assert all[nrows..][1..] == all[nrows + 1..];
      Step();
      nrows := nrows + 1;
    }
  }

  /**
   db_bind(): the parameters in placeholder order, then Bind().  `engine` holds what
   sqlite3_bind_parameter_name() returns for each placeholder.
   */
  method DbBind(result: SqliteResultImpl, engine: seq<Option<string>>, params: ParamList<seq<Cell>>, superset: bool)
    returns (r: Result<(), BindError>, warned: bool)
    requires result.Valid() && params.Valid() && |engine| == result.nparams
    requires forall k :: 0 <= k < |engine| ==> engine[k] != Some("")
    modifies result
    ensures result.Valid() && result.types == old(result.types)
    ensures r.Failure? ==> unchanged(result)
    ensures warned <==> WarnsUnused(PlaceholderNames(engine), params, superset)
    ensures var matched := MatchParams(PlaceholderNames(engine), params, superset);
            && (matched.Failure? ==> r == Failure(matched.error))
            && (matched.Success? ==>
                  var values := matched.value;
                  && (r.Success? <==> engine != [] && |values| == |engine| && Rectangular(values, |values[0]|))
                  && (r.Success? ==>
                        && result.ready && result.nrows == 0
                        && result.all == RowsFrom(result.query, values, |values[0]|, 0)))
  {
    hide MatchParams, WarnsUnused, SqliteResultImpl.Valid, RowsFrom;
    warned := WarnsUnused(PlaceholderNames(engine), params, superset);
    var matched := MatchParams(PlaceholderNames(engine), params, superset);
    if matched.Failure? {
      return Failure(matched.error), warned;
    }
    r := result.Bind(matched.value);
  }
}
