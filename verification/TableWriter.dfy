/**
 dbWriteTable() for data frames and for files, and dbAppendTable(): savepoint-protected
 sequences of changes with a rollback on exit.
 */
module TableWriter {
  import opened Wrappers
  import opened Savepoints
  import opened Connections
  import opened Bytes
  import opened FieldSplitter
  import opened FileImport

  /** What the engine and the R helpers do to the contents, as parameters of the model. */
  datatype FrameOps<!D> = FrameOps(
    tableExists: D -> Option<bool>,  // dbExistsTable(); None is an error
    remove: D -> Outcome<D>,     // dbRemoveTable()
    converts: bool,              // sql_data() succeeds
    defines: bool,               // field_def() succeeds
    create: D -> Outcome<D>,     // dbCreateTable()
    columnsMatch: D -> bool,     // dbListFields() and match_col() succeed
    hasRows: bool,               // nrow(value) > 0
    append: D -> Outcome<D>)     // the default method of dbAppendTable()

  datatype FileOps<!D> = FileOps(
    tableExists: D -> Option<bool>,
    remove: D -> Outcome<D>,
    readable: bool,              // read.table() succeeds
    create: D -> Outcome<D>,     // the CREATE TABLE statement
    importFile: D -> Outcome<D>) // connection_import_file()

  datatype Options = Options(overwrite: bool, append: bool, hasFieldTypes: bool)

  function AndThen<D>(o: Outcome<D>, f: D -> Outcome<D>): Outcome<D> {
    match o case Done(d) => f(d) case Failed(d) => Failed(d)
  }

  /** The part both variants share: the existence check and the removal for `overwrite`. */
  function Prepared<D>(o: Options, found: bool, remove: D -> Outcome<D>, d: D): Outcome<D> {
    if found && !o.overwrite && !o.append then Failed(d)
    else if found && o.overwrite then remove(d)
    else Done(d)
  }

  /** What writing a data frame does to the contents when nothing protects it. */
  function FrameEffect<D>(o: Options, ops: FrameOps<D>, d: D): Outcome<D> {
    match ops.tableExists(d)
    case None => Failed(d)
    case Some(found) =>
      var made := AndThen(Prepared(o, found, ops.remove, d), (e: D) =>
        if !ops.converts then Failed(e)
        else if !found || o.overwrite then (if ops.defines then ops.create(e) else Failed(e))
        else if ops.columnsMatch(e) then Done(e) else Failed(e));
      if ops.hasRows then AndThen(made, ops.append) else made
  }

  /** What writing a file does to the contents when nothing protects it. */
  function FileEffect<D>(o: Options, ops: FileOps<D>, d: D): Outcome<D> {
    match ops.tableExists(d)
    case None => Failed(d)
    case Some(found) =>
      var made := AndThen(Prepared(o, found, ops.remove, d), (e: D) =>
        if !found || o.overwrite then
          (if o.hasFieldTypes || ops.readable then ops.create(e) else Failed(e))
        else Done(e));
      AndThen(made, ops.importFile)
  }

  /** The promise of all three functions: all of the effect, or no trace of the call. */
  predicate Atomically<D(==)>(s: State<D>, t: State<D>, ok: bool, effect: Outcome<D>) {
    && ok == effect.Done?
    && (if ok then Leaves(s, t, effect.content) else t == s)
  }

  /** dbAppendTable(). */
  method AppendTable<D>(conn: Connection<D>, savepointId: string, append: D -> Outcome<D>) returns (ok: bool)
    requires Consistent(conn.View())
    modifies conn
    ensures Consistent(conn.View())
    ensures Atomically(old(conn.View()), conn.View(), ok, append(old(conn.content)))
  {
    ghost var s := conn.View();
    ok := conn.DbBegin(Some(savepointId));
    ok := conn.Apply(append(conn.content));
    CloseOwnFrame(s, savepointId, conn.View());
    if ok {
      ok := conn.DbCommit(Some(savepointId));
    } else {
      var undone := conn.DbRollback(Some(savepointId));
    }
  }

  /** The body of dbWriteTable() for data frames, between dbBegin() and dbCommit(). */
  method FrameBody<D>(conn: Connection<D>, appendId: string, o: Options, ops: FrameOps<D>) returns (ok: bool)
    requires Consistent(conn.View()) && conn.stack != []
    modifies conn
    ensures ok == FrameEffect(o, ops, old(conn.content)).Done?
    ensures ok ==> conn.content == FrameEffect(o, ops, old(conn.content)).content
    ensures conn.stack == old(conn.stack) && conn.durable == old(conn.durable)
  {
    var known := ops.tableExists(conn.content);
    if known.None? {
      return false;
    }
    var found := known.value;
    if found && !o.overwrite && !o.append {
      return false;
    }
    if found && o.overwrite {
      ok := conn.Apply(ops.remove(conn.content));
      if !ok { return; }
    }
    if !ops.converts {
      return false;
    }
    if !found || o.overwrite {
      if !ops.defines {
        return false;
      }
      ok := conn.Apply(ops.create(conn.content));
      if !ok { return; }
    } else if o.append {
      if !ops.columnsMatch(conn.content) {
        return false;
      }
    }
    ok := true;
    if ops.hasRows {
      ok := AppendTable(conn, appendId, ops.append);
    }
  }

  /** dbWriteTable() for data frames; `savepointId` and `appendId` are the random names. */
  method WriteDataFrame<D>(conn: Connection<D>, savepointId: string, appendId: string, o: Options, ops: FrameOps<D>)
    returns (ok: bool)
    requires Consistent(conn.View())
    modifies conn
    ensures Consistent(conn.View())
    ensures (o.overwrite && o.append) || (o.append && o.hasFieldTypes) ==> !ok && conn.View() == old(conn.View())
    ensures !(o.overwrite && o.append) && !(o.append && o.hasFieldTypes) ==>
              Atomically(old(conn.View()), conn.View(), ok, FrameEffect(o, ops, old(conn.content)))
  {
    if o.overwrite && o.append {
      return false;
    }
    if o.append && o.hasFieldTypes {
      return false;
    }
    ghost var s := conn.View();
    ok := conn.DbBegin(Some(savepointId));
    PerformDurable(s, Call.DbBegin(Some(savepointId)));
    ok := FrameBody(conn, appendId, o, ops);
    CloseOwnFrame(s, savepointId, conn.View());
    if ok {
      ok := conn.DbCommit(Some(savepointId));
    } else {
      var undone := conn.DbRollback(Some(savepointId));
    }
  }

  method FileBody<D>(conn: Connection<D>, o: Options, ops: FileOps<D>) returns (ok: bool)
    requires conn.stack != []
    modifies conn
    ensures ok == FileEffect(o, ops, old(conn.content)).Done?
    ensures ok ==> conn.content == FileEffect(o, ops, old(conn.content)).content
    ensures conn.stack == old(conn.stack) && conn.durable == old(conn.durable)
  {
    var known := ops.tableExists(conn.content);
    if known.None? {
      return false;
    }
    var found := known.value;
    if found && !o.overwrite && !o.append {
      return false;
    }
    if found && o.overwrite {
      ok := conn.Apply(ops.remove(conn.content));
      if !ok { return; }
    }
    if !found || o.overwrite {
      if !o.hasFieldTypes && !ops.readable {
        return false;
      }
      ok := conn.Apply(ops.create(conn.content));
      if !ok { return; }
    }
    ok := conn.Apply(ops.importFile(conn.content));
  }

  /** dbWriteTable() for files. */
  method WriteFile<D>(conn: Connection<D>, savepointId: string, o: Options, ops: FileOps<D>) returns (ok: bool)
    requires Consistent(conn.View())
    modifies conn
    ensures Consistent(conn.View())
    ensures o.overwrite && o.append ==> !ok && conn.View() == old(conn.View())
    ensures !(o.overwrite && o.append) ==>
              Atomically(old(conn.View()), conn.View(), ok, FileEffect(o, ops, old(conn.content)))
  {
    if o.overwrite && o.append {
      return false;
    }
    ghost var s := conn.View();
    ok := conn.DbBegin(Some(savepointId));
    ok := FileBody(conn, o, ops);
    CloseOwnFrame(s, savepointId, conn.View());
    if ok {
      ok := conn.DbCommit(Some(savepointId));
    } else {
      var undone := conn.DbRollback(Some(savepointId));
    }
  }

  // ---------------------------------------------------------------- over a catalog of tables

  datatype Table<+R> = Table(ncols: nat, rows: seq<R>)

  type Catalog<R> = map<string, Table<R>>

  /** Table names are not case sensitive: a table is found under its name in lower case. */
  function Key(name: string): (key: string)
    ensures |key| == |name|
  {
    seq(|name|, i requires 0 <= i < |name| => Fold(name[i]))
  }

  lemma KeysCompareNames(a: string, b: string)
    ensures Key(a) == Key(b) <==> |a| == |b| && forall i :: 0 <= i < |a| ==> SpelledAlike(a[i], b[i])
  {
    SameNameMeans(a, b);
    if SameName(a, b) {
      assert forall i :: 0 <= i < |a| ==> Key(a)[i] == Key(b)[i];
    } else if |a| == |b| {
      var i :| 0 <= i < |a| && Fold(a[i]) != Fold(b[i]);
      assert Key(a)[i] != Key(b)[i];
    }
  }

  /** What is written, and which of the helpers fail; the engine takes the first `accepted` rows. */
  datatype Content<+R> = Content(ncols: nat, rows: seq<R>, converts: bool, defines: bool, matches: bool, accepted: nat)

  /** The helpers when contents are a catalog. */
  function CatalogOps<R>(name: string, c: Content<R>): FrameOps<Catalog<R>> {
    var key := Key(name);
    FrameOps(
      (d: Catalog<R>) => Some(key in d),
      (d: Catalog<R>) => if key in d then Done(d - {key}) else Failed(d),
      c.converts,
      c.defines,
      (d: Catalog<R>) => if key in d then Failed(d) else Done(d[key := Table(c.ncols, [])]),
      (d: Catalog<R>) => key in d && c.matches,
      c.rows != [],
      (d: Catalog<R>) =>
        if key !in d then Failed(d)
        else if c.accepted < |c.rows| then Failed(Grown(d, key, c.rows[..c.accepted]))
        else Done(Grown(d, key, c.rows)))
  }

  function Grown<R>(d: Catalog<R>, key: string, rows: seq<R>): Catalog<R>
    requires key in d
  {
    d[key := d[key].(rows := d[key].rows + rows)]
  }

  /** The table that a successful call leaves: the old rows (append only) and then the new ones. */
  function Written<R>(d: Catalog<R>, key: string, o: Options, ncols: nat, rows: seq<R>): (e: Catalog<R>)
    ensures key in e && e[key].rows == (if key in d && o.append then d[key].rows else []) + rows
    ensures e[key].ncols == if key in d && o.append then d[key].ncols else ncols
    ensures e - {key} == d - {key}
  {
    assert [] + rows == rows;
    if key in d && o.append then Grown(d, key, rows) else d[key := Table(ncols, rows)]
  }

  /**
   Creating, overwriting and appending: the call fails exactly if the table exists and neither
   option is given or a helper that is needed fails; otherwise every other table is as before.
   */
  lemma CatalogWrite<R>(name: string, c: Content<R>, o: Options, d: Catalog<R>)
    requires !(o.overwrite && o.append)
    ensures var e, key := FrameEffect(o, CatalogOps(name, c), d), Key(name);
            && (e.Failed? <==>
                || (key in d && !o.overwrite && !o.append) || !c.converts
                || (if key in d && o.append then !c.matches else !c.defines)
                || c.accepted < |c.rows|)
            && (e.Done? ==> e.content == Written(d, key, o, c.ncols, c.rows))
  {
    var key, ops := Key(name), CatalogOps(name, c);
    var base := if key in d && o.overwrite then d - {key} else d;
    if !(key in d && !o.overwrite && !o.append) {
      assert Prepared(o, key in d, ops.remove, d) == Done(base);
      var made := base[key := Table(c.ncols, [])];
      assert [] + c.rows == c.rows && made == d[key := Table(c.ncols, [])];
      assert Grown(made, key, c.rows) == d[key := Table(c.ncols, c.rows)];
      if key in d && o.append && c.rows == [] {
        assert d[key].rows + [] == d[key].rows && Grown(d, key, []) == d;
      }
    }
  }

  // ---------------------------------------------------------------- writing a delimited file

  /**
   A file, how it is read, and which of its rows the engine inserts; `undefined` stands for what
   a last line without end may do.
   */
  datatype Delimited = Delimited(
    file: Bytes, sep: Bytes, eol: Bytes, skip: int, accepts: Acceptance, undefined: Outcome<Catalog<Row>>)

  /** RS_sqlite_import() into a table of the catalog; an error leaves the rows before it inserted. */
  function ImportInto(key: string, f: Delimited, d: Catalog<Row>): Outcome<Catalog<Row>>
    requires f.eol != []
  {
    if f.sep == [] || key !in d then Failed(d)
    else if d[key].ncols == 0 then Done(d)
    else
      var imp := Inserting(f.accepts, [], ImportBytes(f.file, f.sep, f.eol, d[key].ncols, f.skip, 0));
      match imp.status
      case Imported => Done(Grown(d, key, imp.rows))
      case ReadsPastBuffer(_) => f.undefined
      case _ => Failed(Grown(d, key, imp.rows))
  }

  /** The helpers of dbWriteTable() for files; `ncols` is the number of columns of a new table. */
  function ImportOps(name: string, ncols: nat, readable: bool, f: Delimited): FileOps<Catalog<Row>>
    requires f.eol != []
  {
    var ops := CatalogOps(name, Content(ncols, [], true, true, true, 0));
    FileOps(ops.tableExists, ops.remove, readable, ops.create, (d: Catalog<Row>) => ImportInto(Key(name), f, d))
  }

  /** Whether the steps before the import fail; a file must be readable to find the types of a new table. */
  predicate FileRefused<R>(name: string, o: Options, readable: bool, d: Catalog<R>) {
    if Key(name) in d && !o.overwrite then !o.append else !o.hasFieldTypes && !readable
  }

  /** The catalog that the import finds. */
  function ImportTarget<R>(name: string, o: Options, ncols: nat, d: Catalog<R>): (e: Catalog<R>)
    ensures Key(name) in e
  {
    if Key(name) in d && !o.overwrite then d else d[Key(name) := Table(ncols, [])]
  }

  lemma FileEffectIs(name: string, o: Options, ncols: nat, readable: bool, f: Delimited, d: Catalog<Row>)
    requires !(o.overwrite && o.append) && f.eol != []
    ensures var e := FileEffect(o, ImportOps(name, ncols, readable, f), d);
            if FileRefused(name, o, readable, d) then e.Failed?
            else e == ImportInto(Key(name), f, ImportTarget(name, o, ncols, d))
  {
    hide ImportInto;
    var key, ops := Key(name), ImportOps(name, ncols, readable, f);
    var base := if key in d && o.overwrite then d - {key} else d;
    if !(key in d && !o.overwrite && !o.append) {
      assert Prepared(o, key in d, ops.remove, d) == Done(base);
      assert base[key := Table(ncols, [])] == d[key := Table(ncols, [])];
    }
  }

  lemma ExportableWidth(rows: seq<Row>, sep: Bytes, eol: Bytes, ncols: nat)
    requires sep != [] && eol != [] && forall i :: 0 <= i < |rows| ==> Exportable(rows[i], sep, eol, ncols)
    ensures rows == [] || ncols > 0
  {
    if rows != [] {
      assert Exportable(rows[0], sep, eol, ncols);
    }
  }

  lemma ExportedIsImported(key: string, f: Delimited, d: Catalog<Row>, header: seq<Bytes>, rows: seq<Row>)
    requires key in d && f.eol != [] && f.sep != [] && NUL !in f.eol
    requires f.file == JoinLines(header + ExportLines(rows, f.sep), f.eol) && f.skip == |header|
    requires forall i :: 0 <= i < |header| ==> Readable(header[i], f.eol)
    requires forall i :: 0 <= i < |rows| ==> Exportable(rows[i], f.sep, f.eol, d[key].ncols)
    requires forall i :: 0 <= i < |rows| ==> f.accepts(rows[..i], rows[i])
    ensures ImportInto(key, f, d) == Done(Grown(d, key, rows))
  {
    hide ImportBytes, JoinLines, Readable, ExportLine, Exportable;
    ImportInvertsExport(header, rows, f.sep, f.eol, d[key].ncols);
    InsertingMeans(f.accepts, [], Import(Imported, rows));
    var inserted := Inserting(f.accepts, [], Import(Imported, rows)).rows;
    assert [] + rows == rows && inserted == rows[..|inserted|];
    if d[key].ncols == 0 {
      ExportableWidth(rows, f.sep, f.eol, 0);
      assert d[key].rows + [] == d[key].rows && Grown(d, key, []) == d;
    }
  }

  lemma GrownIsWritten<R>(name: string, o: Options, ncols: nat, d: Catalog<R>, rows: seq<R>)
    requires !(o.overwrite && o.append) && (Key(name) in d && !o.overwrite ==> o.append)
    ensures Grown(ImportTarget(name, o, ncols, d), Key(name), rows) == Written(d, Key(name), o, ncols, rows)
  {
    assert [] + rows == rows;
  }

  /**
   dbWriteTable() for the file that rows were exported to (behind skipped header lines): with
   the contract of WriteFile the call succeeds unless a step before the import fails, and the
   table then holds the old rows (append only) and the exported ones.
   */
  lemma ExportedFileIsWritten(s: State<Catalog<Row>>, t: State<Catalog<Row>>, ok: bool,
                              name: string, o: Options, ncols: nat, readable: bool,
                              f: Delimited, header: seq<Bytes>, rows: seq<Row>)
    requires !(o.overwrite && o.append) && f.eol != [] && f.sep != [] && NUL !in f.eol
    requires f.file == JoinLines(header + ExportLines(rows, f.sep), f.eol) && f.skip == |header|
    requires forall i :: 0 <= i < |header| ==> Readable(header[i], f.eol)
    requires forall i :: 0 <= i < |rows| ==>
                           Exportable(rows[i], f.sep, f.eol, ImportTarget(name, o, ncols, s.content)[Key(name)].ncols)
    requires forall i :: 0 <= i < |rows| ==> f.accepts(rows[..i], rows[i])
    requires Atomically(s, t, ok, FileEffect(o, ImportOps(name, ncols, readable, f), s.content))
    ensures ok <==> !FileRefused(name, o, readable, s.content)
    ensures if ok then Leaves(s, t, Written(s.content, Key(name), o, ncols, rows)) else t == s
  {
    hide ImportInto, Exportable, Readable, JoinLines, FileEffect, Written, Grown;
    FileEffectIs(name, o, ncols, readable, f, s.content);
    ExportedIsImported(Key(name), f, ImportTarget(name, o, ncols, s.content), header, rows);
    if !FileRefused(name, o, readable, s.content) {
      GrownIsWritten(name, o, ncols, s.content, rows);
    }
  }

  /** A line with the wrong number of fields, wherever it stands, undoes the whole call. */
  lemma WrongLineLeavesNoTrace(s: State<Catalog<Row>>, t: State<Catalog<Row>>, ok: bool,
                               name: string, o: Options, ncols: nat, readable: bool, f: Delimited, k: nat)
    requires !(o.overwrite && o.append) && f.eol != [] && f.sep != []
    requires var n := ImportTarget(name, o, ncols, s.content)[Key(name)].ncols;
             n > 0 && IsFirstWrong(ReadAll(f.file, f.eol).lines, f.sep, n, f.skip, 0, k)
    requires Atomically(s, t, ok, FileEffect(o, ImportOps(name, ncols, readable, f), s.content))
    ensures !ok && t == s
  {
    var n := ImportTarget(name, o, ncols, s.content)[Key(name)].ncols;
    FileEffectIs(name, o, ncols, readable, f, s.content);
    FirstWrongIsReported(ReadAll(f.file, f.eol), f.sep, n, f.skip, 0, k);
    InsertingMeans(f.accepts, [], ImportBytes(f.file, f.sep, f.eol, n, f.skip, 0));
  }
}
