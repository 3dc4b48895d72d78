/** The import loop over the lines of a file (src/import-file.c, lines 28-163). */
module FileImport {
  import opened Bytes
  import opened FieldSplitter
  import opened LineReader
  import opened Wrappers

  type Row = seq<Field>

  datatype Status =
    | Imported
    | NoSeparator
    | NoTable
    | WrongColumns(lineno: nat)
    | InsertFailed
    | ReadsPastBuffer(lineno: nat)  // a last line without end of line: the buffer has no NUL

  datatype Import = Import(status: Status, rows: seq<Row>)

  /** The lines that successive calls of the reader yield, and whether one is unterminated. */
  datatype Reading = Reading(lines: seq<Bytes>, unterminated: bool)

  function ReadAll(s: Bytes, eol: Bytes): Reading
    requires eol != []
    decreases |s|
  {
    match NextLine(s, eol)
    case NoLine => Reading([], false)
    case Unterminated(_) => Reading([], true)
    case Line(t) =>
      var rest := ReadAll(s[Consumed(s, eol)..], eol);
      Reading([t] + rest.lines, rest.unterminated)
  }

  /** What becomes of lines that are numbered from `lineno + 1`. */
  function ImportLines(r: Reading, sep: Bytes, nCol: nat, skip: int, lineno: nat): Import
    requires sep != []
    decreases r.lines
  {
    if r.lines == [] then
      Import(if r.unterminated then ReadsPastBuffer(lineno + 1) else Imported, [])
    else
      var rest := Reading(r.lines[1..], r.unterminated);
      if lineno + 1 <= skip then ImportLines(rest, sep, nCol, skip, lineno + 1)
      else
        var fs := Split(r.lines[0], sep);
        if |fs| != nCol then Import(WrongColumns(lineno + 1), [])
        else
          var tail := ImportLines(rest, sep, nCol, skip, lineno + 1);
          Import(tail.status, [BindAll(fs)] + tail.rows)
  }

  /** The bound values of a row, read from the noted places. */
  method BindRow(z: array<byte>, azCol: array<nat>, nCol: nat, ghost fs: seq<Bytes>) returns (row: Row)
    requires nCol <= azCol.Length && |fs| == nCol && ReadsAs(z[..], azCol[..], fs)
    ensures row == BindAll(fs)
  {
    row := [];
    var k := 0;
    while k < nCol
      invariant 0 <= k <= nCol && row == BindAll(fs)[..k]
    {
      assert z[azCol[k]..] == z[..][azCol[..][k]..];
      row := row + [Bind(CString(z[azCol[k]..]))];
      k := k + 1;
    }
  }

  /** Splits one line and binds its fields; the line is refused if their number is wrong. */
  method ImportLine(zLine: array<byte>, ghost line: Bytes, sep: Bytes, nCol: nat, azCol: array<nat>)
    returns (ok: bool, row: Row)
    requires |line| < zLine.Length && line <= zLine[..] && zLine[|line|] == NUL && NUL !in line
    requires sep != [] && NUL !in sep && nCol >= 1 && azCol.Length == nCol + 1
    modifies zLine, azCol
    ensures ok <==> |Split(line, sep)| == nCol
    ensures ok ==> row == BindAll(Split(line, sep))
  {
    var i := SplitInPlace(zLine, line, sep, nCol, azCol);
    ok, row := i + 1 == nCol, [];
    if ok {
      row := BindRow(zLine, azCol, nCol, Split(line, sep));
    }
  }

  /** Rows already inserted, put before those still to come. */
  function After(rows: seq<Row>, rest: Import): Import {
    Import(rest.status, rows + rest.rows)
  }

  function ImportBytes(s: Bytes, sep: Bytes, eol: Bytes, nCol: nat, skip: int, lineno: nat): Import
    requires sep != [] && eol != []
  {
    ImportLines(ReadAll(s, eol), sep, nCol, skip, lineno)
  }

  /** The import of a file, one line at a time. */
  lemma ImportStep(s: Bytes, sep: Bytes, eol: Bytes, nCol: nat, skip: int, lineno: nat)
    requires sep != [] && eol != []
    ensures NextLine(s, eol).NoLine? ==> ImportBytes(s, sep, eol, nCol, skip, lineno) == Import(Imported, [])
    ensures NextLine(s, eol).Unterminated? ==>
              ImportBytes(s, sep, eol, nCol, skip, lineno) == Import(ReadsPastBuffer(lineno + 1), [])
    ensures NextLine(s, eol).Line? ==>
              ImportBytes(s, sep, eol, nCol, skip, lineno) ==
              FirstLine(NextLine(s, eol).text, sep, nCol, lineno + 1, skip,
                        ImportBytes(s[Consumed(s, eol)..], sep, eol, nCol, skip, lineno + 1))
  {
    if NextLine(s, eol).Line? {
      var rest := ReadAll(s[Consumed(s, eol)..], eol);
      assert ReadAll(s, eol).lines[1..] == rest.lines;
    }
  }

  function FirstLine(t: Bytes, sep: Bytes, nCol: nat, lineno: nat, skip: int, rest: Import): Import
    requires sep != []
  {
    if lineno <= skip then rest
    else if |Split(t, sep)| != nCol then Import(WrongColumns(lineno), [])
    else After([BindAll(Split(t, sep))], rest)
  }

  /** One turn of the import loop: the import ends, a line is skipped, or a row is inserted. */
  datatype Turn = Ends(status: Status) | Skipped | Inserted(row: Row)

  function Then(turn: Turn, rest: Import): Import {
    match turn
    case Ends(status) => Import(status, [])
    case Skipped => rest
    case Inserted(row) => After([row], rest)
  }

  method ImportNext(file: FileStream, sep: Bytes, eol: Bytes, skip: int, nCol: nat, lineno: nat, azCol: array<nat>)
    returns (turn: Turn)
    requires file.Valid() && eol != [] && sep != [] && NUL !in sep && azCol.Length == nCol + 1
    requires nCol > 0 && lineno > 0
    modifies file, azCol
    ensures file.Valid()
    ensures ImportBytes(old(file.Unread()), sep, eol, nCol, skip, lineno - 1) ==
            Then(turn, ImportBytes(file.Unread(), sep, eol, nCol, skip, lineno))
    ensures !turn.Ends? ==> |file.Unread()| < |old(file.Unread())|
  {
    hide ImportBytes, NextLine, Split, BindAll, CString;
    ghost var s := file.Unread();
    ImportStep(s, sep, eol, nCol, skip, lineno - 1);
    var zLine, unterminated := file.GetLine(eol);
    if zLine == null {
      return Ends(Imported);
    }
    if unterminated {
      return Ends(ReadsPastBuffer(lineno));
    }
    assert file.Unread() == s[Consumed(s, eol)..];
    if lineno <= skip {
      return Skipped;
    }
    var ok, row := ImportLine(zLine, NextLine(s, eol).text, sep, nCol, azCol);
    turn := if ok then Inserted(row) else Ends(WrongColumns(lineno));
  }

  /** Whether the engine inserts a row behind those that this import has inserted already. */
  type Acceptance = (seq<Row>, Row) -> bool

  /** An import whose rows are inserted one by one behind `done`, up to the first one refused. */
  function Inserting(accepts: Acceptance, done: seq<Row>, rest: Import): Import
    decreases |rest.rows|
  {
    if rest.rows == [] then Import(rest.status, done)
    else if !accepts(done, rest.rows[0]) then Import(InsertFailed, done)
    else Inserting(accepts, done + [rest.rows[0]], Import(rest.status, rest.rows[1..]))
  }

  lemma InsertOne(accepts: Acceptance, done: seq<Row>, row: Row, rest: Import)
    ensures Inserting(accepts, done, After([row], rest)) ==
            if accepts(done, row) then Inserting(accepts, done + [row], rest) else Import(InsertFailed, done)
  {
    assert After([row], rest).rows[1..] == rest.rows;
  }

  /** The first row refused ends the import; without one nothing changes. */
  lemma {:induction false} InsertingMeans(accepts: Acceptance, done: seq<Row>, rest: Import)
    requires rest.status != InsertFailed
    ensures var r := Inserting(accepts, done, rest);
            && done <= r.rows <= done + rest.rows
            && (r.status == InsertFailed <==>
                |r.rows| < |done + rest.rows| && !accepts(r.rows, (done + rest.rows)[|r.rows|]))
            && (r.status != InsertFailed ==> r == After(done, rest))
            && forall k :: |done| <= k < |r.rows| ==> accepts(r.rows[..k], r.rows[k])
    decreases |rest.rows|
  {
    if rest.rows == [] {
      assert done + [] == done;
    } else if accepts(done, rest.rows[0]) {
      var more := Import(rest.status, rest.rows[1..]);
      var r := Inserting(accepts, done + [rest.rows[0]], more);
      InsertingMeans(accepts, done + [rest.rows[0]], more);
      assert done + [rest.rows[0]] + more.rows == done + rest.rows;
      assert r.rows[..|done|] == done && r.rows[|done|] == rest.rows[0];
    }
  }

  /**
   RS_sqlite_import() on an open file.  `table` is the number of columns of the table, if it
   exists; `skip` lines are passed over.  A table without columns ends the import at once.
   */
  method ImportFile(file: FileStream, sep: Bytes, eol: Bytes, skip: int, table: Option<nat>, accepts: Acceptance)
    returns (r: Import)
    requires file.Valid() && eol != [] && NUL !in sep
    modifies file
    ensures file.Valid()
    ensures sep == [] ==> r == Import(NoSeparator, [])
    ensures sep != [] && table.None? ==> r == Import(NoTable, [])
    ensures sep != [] && table == Some(0) ==> r == Import(Imported, [])
    ensures sep != [] && table.Some? && table.value > 0 ==>
              r == Inserting(accepts, [], ImportBytes(old(file.Unread()), sep, eol, table.value, skip, 0))
  {
    hide ImportBytes;
    if sep == [] {
      return Import(NoSeparator, []);
    }
    if table.None? {
      return Import(NoTable, []);
    }
    var nCol := table.value;
    if nCol == 0 {
      return Import(Imported, []);
    }
    var azCol := new nat[nCol + 1];
    var lineno := 0;
    var rows: seq<Row> := [];
    ghost var goal := Inserting(accepts, rows, ImportBytes(file.Unread(), sep, eol, nCol, skip, 0));
    while true
      invariant file.Valid() && fresh(azCol)
      invariant goal == Inserting(accepts, rows, ImportBytes(file.Unread(), sep, eol, nCol, skip, lineno))
      decreases |file.Unread()|
    {
      lineno := lineno + 1;
      var turn := ImportNext(file, sep, eol, skip, nCol, lineno, azCol);
      match turn
      case Ends(status) =>
        return Import(status, rows);
      case Skipped =>
      case Inserted(row) =>
        InsertOne(accepts, rows, row, ImportBytes(file.Unread(), sep, eol, nCol, skip, lineno));
        if !accepts(rows, row) {
          return Import(InsertFailed, rows);
        }
        rows := rows + [row];
    }
  }

  // ---------------------------------------------------------------- files as joined lines

  /** Lines, each followed by the end-of-line string. */
  function JoinLines(ls: seq<Bytes>, eol: Bytes): Bytes {
    if ls == [] then [] else ls[0] + eol + JoinLines(ls[1..], eol)
  }

  /** In a line followed by its end of line, no end of line is complete any earlier. */
  predicate Closed(l: Bytes, eol: Bytes)
    requires eol != []
  {
    EolFrom(l + eol, eol, 0) == Found(|l| + |eol|)
  }

  /** The texts between successive ends of line, and what follows the last one. */
  function Texts(s: Bytes, eol: Bytes): seq<Bytes>
    requires eol != []
    decreases |s|
  {
    match EolFrom(s, eol, 0)
    case NotFound => []
    case Found(k) => [s[..k - |eol|]] + Texts(s[k..], eol)
  }

  function Rest(s: Bytes, eol: Bytes): Bytes
    requires eol != []
    decreases |s|
  {
    match EolFrom(s, eol, 0)
    case NotFound => s
    case Found(k) => Rest(s[k..], eol)
  }

  function UpToEmpty(ls: seq<Bytes>): seq<Bytes> {
    if ls == [] || ls[0] == [] then [] else [ls[0]] + UpToEmpty(ls[1..])
  }

  lemma {:induction false} EolFromPrefix(s: Bytes, t: Bytes, eol: Bytes, from: nat)
    requires eol != [] && from <= |s| && EolFrom(s, eol, from).Found?
    ensures EolFrom(s + t, eol, from) == EolFrom(s, eol, from)
    decreases |s| - from
  {
    assert (s + t)[..from] == s[..from];
    if !EndsWithEol(s[..from], eol) {
      EolFromPrefix(s, t, eol, from + 1);
    }
  }

  lemma {:induction false} EolFromShorter(s: Bytes, eol: Bytes, from: nat, k: nat)
    requires eol != [] && from <= k <= |s| && EolFrom(s, eol, from) == Found(k)
    ensures EolFrom(s[..k], eol, from) == Found(k)
    decreases k - from
  {
    assert s[..k][..from] == s[..from];
    if from < k {
      EolFromShorter(s, eol, from + 1, k);
    }
  }

  /** Cutting off the first line of a file. */
  lemma CutLine(s: Bytes, eol: Bytes) returns (l: Bytes, tail: Bytes)
    requires eol != [] && EolFrom(s, eol, 0).Found?
    ensures s == l + eol + tail && Closed(l, eol) && |tail| < |s|
    ensures Texts(s, eol) == [l] + Texts(tail, eol) && Rest(s, eol) == Rest(tail, eol)
  {
    var k := EolFrom(s, eol, 0).end;
    l, tail := s[..k - |eol|], s[k..];
    assert s[..k] == l + eol;
    EolFromShorter(s, eol, 0, k);
  }

  /** Putting a closed line before a file. */
  lemma PutLine(l: Bytes, eol: Bytes, tail: Bytes)
    requires eol != [] && Closed(l, eol)
    ensures Texts(l + eol + tail, eol) == [l] + Texts(tail, eol) && Rest(l + eol + tail, eol) == Rest(tail, eol)
    ensures NUL !in l ==>
              NextLine(l + eol + tail, eol) == AsLine(l) && (l + eol + tail)[Consumed(l + eol + tail, eol)..] == tail
  {
    var s := l + eol + tail;
    EolFromPrefix(l + eol, tail, eol, 0);
    var k := |l| + |eol|;
    assert s[..k - |eol|] == l && s[k..] == tail;
    if NUL !in l {
      CStringOfPrefix(l, l);
    }
  }

  lemma NoLineLeft(s: Bytes, eol: Bytes)
    requires eol != [] && EolFrom(s, eol, 0) == NotFound
    ensures Texts(s, eol) == [] && JoinLines([], eol) == [] && Rest(s, eol) == s
    ensures NUL !in s ==> ReadAll(s, eol) == Reading([], s != [])
  {}

  lemma JoinFirstLine(l: Bytes, ls: seq<Bytes>, eol: Bytes)
    ensures JoinLines([l] + ls, eol) == l + eol + JoinLines(ls, eol)
  {
    assert ([l] + ls)[1..] == ls;
  }

  /** The texts of a file are closed lines that, joined again, give back the file. */
  lemma {:induction false} TextsJoin(s: Bytes, eol: Bytes)
    requires eol != []
    ensures JoinLines(Texts(s, eol), eol) + Rest(s, eol) == s
    ensures forall i :: 0 <= i < |Texts(s, eol)| ==> Closed(Texts(s, eol)[i], eol)
    decreases |s|
  {
    hide Texts, Rest, JoinLines, Closed, EolFrom;
    if EolFrom(s, eol, 0).Found? {
      var l, tail := CutLine(s, eol);
      TextsJoin(tail, eol);
      JoinFirstLine(l, Texts(tail, eol), eol);
      assert l + eol + JoinLines(Texts(tail, eol), eol) + Rest(tail, eol) == l + eol + tail;
    } else {
      NoLineLeft(s, eol);
      assert JoinLines([], eol) + s == s;
    }
  }

  /** Closed lines are exactly what a joined file is cut into. */
  lemma JoinTexts(ls: seq<Bytes>, eol: Bytes)
    requires eol != []
    ensures Texts(JoinLines(ls, eol), eol) == ls && Rest(JoinLines(ls, eol), eol) == [] <==>
            forall i :: 0 <= i < |ls| ==> Closed(ls[i], eol)
  {
    if forall i :: 0 <= i < |ls| ==> Closed(ls[i], eol) {
      JoinClosed(ls, eol);
    }
    TextsJoin(JoinLines(ls, eol), eol);
  }

  lemma {:induction false} JoinClosed(ls: seq<Bytes>, eol: Bytes)
    requires eol != [] && forall i :: 0 <= i < |ls| ==> Closed(ls[i], eol)
    ensures Texts(JoinLines(ls, eol), eol) == ls && Rest(JoinLines(ls, eol), eol) == []
  {
    if ls == [] {
      assert EolFrom([], eol, 0) == NotFound;
    } else {
      JoinClosed(ls[1..], eol);
      PutLine(ls[0], eol, JoinLines(ls[1..], eol));
    }
  }

  /**
   The reader yields, in order, the texts between ends of line up to the first empty one,
   where the import stops; a file without NUL is misread only in a last unterminated line.
   */
  lemma {:induction false} ReaderYieldsTexts(s: Bytes, eol: Bytes)
    requires eol != [] && NUL !in s
    ensures ReadAll(s, eol).lines == UpToEmpty(Texts(s, eol))
    ensures ReadAll(s, eol).unterminated <==> [] !in Texts(s, eol) && Rest(s, eol) != []
    decreases |s|
  {
    if EolFrom(s, eol, 0).Found? {
      var l, tail := CutLine(s, eol);
      PutLine(l, eol, tail);
      assert forall b :: b in tail ==> b in s;
      ReaderYieldsTexts(tail, eol);
      assert Texts(s, eol)[1..] == Texts(tail, eol);
    }
  }

  /** Lines can be told apart exactly if the last byte of the end-of-line string is below 128. */
  lemma UsableEol(eol: Bytes)
    requires eol != []
    ensures Closed([], eol) <==> eol[|eol| - 1] < 128
    ensures eol[|eol| - 1] >= 128 ==> forall s :: Texts(s, eol) == []
  {
    assert [] + eol == eol && eol[..|eol|] == eol;
    if eol[|eol| - 1] < 128 {
      EolFromFirst(eol, eol, 0, |eol|);
    } else {
      forall s ensures Texts(s, eol) == [] {
      }
    }
  }

  // ---------------------------------------------------------------- export and import

  function ExportLine(row: Row, sep: Bytes): Bytes {
    if row == [] then [] else Join(EncodeAll(row), sep)
  }

  function ExportLines(rows: seq<Row>, sep: Bytes): seq<Bytes> {
    seq(|rows|, i requires 0 <= i < |rows| => ExportLine(rows[i], sep))
  }

  /** A line that the reader gets past, whatever it says. */
  predicate Readable(l: Bytes, eol: Bytes)
    requires eol != []
  {
    l != [] && NUL !in l && Closed(l, eol)
  }

  /** A row whose line can be told from its neighbours and whose fields can be told apart. */
  predicate Exportable(row: Row, sep: Bytes, eol: Bytes, nCol: nat)
    requires sep != [] && eol != []
  {
    && |row| == nCol > 0
    && Clean(EncodeAll(row), sep)
    && (forall i :: 0 <= i < |row| && row[i].TextField? ==> !(NULL_MARK <= row[i].text))
    && Readable(ExportLine(row, sep), eol)
  }

  lemma ExportedReadable(row: Row, sep: Bytes, eol: Bytes, nCol: nat)
    requires sep != [] && eol != [] && Exportable(row, sep, eol, nCol)
    ensures Readable(ExportLine(row, sep), eol)
  {}

  lemma ReadFirstLine(l: Bytes, eol: Bytes, tail: Bytes)
    requires eol != [] && Readable(l, eol)
    ensures ReadAll(l + eol + tail, eol) == Reading([l] + ReadAll(tail, eol).lines, ReadAll(tail, eol).unterminated)
  {
    hide Closed, EolFrom, Texts, Rest;
    PutLine(l, eol, tail);
  }

  /** Readable lines are read as they are, whatever follows. */
  lemma {:induction false} ReadHeader(header: seq<Bytes>, ls: seq<Bytes>, eol: Bytes)
    requires eol != [] && forall i :: 0 <= i < |header| ==> Readable(header[i], eol)
    ensures var r := ReadAll(JoinLines(ls, eol), eol);
            ReadAll(JoinLines(header + ls, eol), eol) == Reading(header + r.lines, r.unterminated)
    decreases |header|
  {
    hide Readable, ReadAll, JoinLines, Closed, EolFrom, Texts, Rest;
    var r := ReadAll(JoinLines(ls, eol), eol);
    if header == [] {
      assert header + ls == ls && header + r.lines == r.lines;
    } else {
      var more := header[1..] + ls;
      ReadHeader(header[1..], ls, eol);
      assert header + ls == [header[0]] + more;
      JoinFirstLine(header[0], more, eol);
      ReadFirstLine(header[0], eol, JoinLines(more, eol));
      assert [header[0]] + (header[1..] + r.lines) == header + r.lines;
    }
  }

  lemma {:induction false} SkipHeader(header: seq<Bytes>, r: Reading, sep: Bytes, nCol: nat, skip: int, lineno: nat)
    requires sep != [] && lineno + |header| <= skip
    ensures ImportLines(Reading(header + r.lines, r.unterminated), sep, nCol, skip, lineno) ==
            ImportLines(r, sep, nCol, skip, lineno + |header|)
    decreases |header|
  {
    if header == [] {
      assert header + r.lines == r.lines;
    } else {
      assert (header + r.lines)[1..] == header[1..] + r.lines;
      SkipHeader(header[1..], r, sep, nCol, skip, lineno + 1);
    }
  }

  lemma {:induction false} ImportExportedLines(rows: seq<Row>, sep: Bytes, eol: Bytes, nCol: nat,
                                               skip: int, lineno: nat)
    requires sep != [] && eol != [] && skip <= lineno
    requires forall i :: 0 <= i < |rows| ==> Exportable(rows[i], sep, eol, nCol)
    ensures ImportLines(Reading(ExportLines(rows, sep), false), sep, nCol, skip, lineno) == Import(Imported, rows)
    decreases rows
  {
    if rows != [] {
      var ls := ExportLines(rows, sep);
      assert ls[1..] == ExportLines(rows[1..], sep);
      ImportExportedLines(rows[1..], sep, eol, nCol, skip, lineno + 1);
      RowRoundTrip(rows[0], sep);
      SplitJoin(EncodeAll(rows[0]), sep);
    }
  }

  // ---------------------------------------------------------------- only exportable rows survive

  /** Binding and encoding again never makes fields longer, and keeps those whose length it keeps. */
  lemma {:induction false} EncodedNoLonger(fs: seq<Bytes>, sep: Bytes)
    requires fs != []
    ensures |Join(EncodeAll(BindAll(fs)), sep)| <= |Join(fs, sep)|
    ensures |Join(EncodeAll(BindAll(fs)), sep)| == |Join(fs, sep)| ==> EncodeAll(BindAll(fs)) == fs
    decreases |fs|
  {
    var gs := EncodeAll(BindAll(fs));
    assert |gs[0]| <= |fs[0]| && (|gs[0]| == |fs[0]| ==> gs[0] == fs[0]);
    if |fs| > 1 {
      assert gs[1..] == EncodeAll(BindAll(fs[1..]));
      EncodedNoLonger(fs[1..], sep);
      if gs[0] == fs[0] && gs[1..] == fs[1..] {
        assert gs == [fs[0]] + fs[1..] == fs;
      }
    }
  }

  /** The line read from the front of `l + eol + tail` is no longer than `l`; if as long, it is `l`. */
  lemma {:induction false} FirstLineShort(l: Bytes, eol: Bytes, tail: Bytes)
    requires eol != [] && NUL !in eol && NextLine(l + eol + tail, eol).Line?
    requires eol[|eol| - 1] >= 128 ==> tail == []
    ensures |NextLine(l + eol + tail, eol).text| <= |l|
    ensures |NextLine(l + eol + tail, eol).text| == |l| ==>
              && NextLine(l + eol + tail, eol).text == l && Readable(l, eol)
              && (l + eol + tail)[Consumed(l + eol + tail, eol)..] == tail
  {
    var s, k := l + eol + tail, |l| + |eol|;
    assert s[..k] == l + eol && s[..k][|l|..] == eol;
    if eol[|eol| - 1] < 128 {
      EolFromFirst(s, eol, 0, k);
      var end := EolFrom(s, eol, 0).end;
      if end == k {
        EolFromShorter(s, eol, 0, k);
        assert s[..k - |eol|] == l && s[k..] == tail;
      }
    } else {
      assert EolFrom(s, eol, 0) == NotFound;
      assert s == l + eol;
      assert NUL in l;
    }
  }

  /** Rows that come back from the file they were exported to could be exported. */
  lemma {:induction false} ImportedIsExportable(rows: seq<Row>, sep: Bytes, eol: Bytes, nCol: nat,
                                                skip: int, lineno: nat)
    requires sep != [] && eol != [] && NUL !in eol && skip <= lineno
    requires ImportBytes(JoinLines(ExportLines(rows, sep), eol), sep, eol, nCol, skip, lineno) == Import(Imported, rows)
    ensures forall i :: 0 <= i < |rows| ==> Exportable(rows[i], sep, eol, nCol)
    decreases |rows|
  {
    if rows != [] {
      var l, tail := ExportLine(rows[0], sep), JoinLines(ExportLines(rows[1..], sep), eol);
      assert ExportLines(rows, sep)[1..] == ExportLines(rows[1..], sep);
      FirstIsExportable(rows, l, tail, sep, eol, nCol, skip, lineno);
      ImportedIsExportable(rows[1..], sep, eol, nCol, skip, lineno + 1);
      forall i | 0 <= i < |rows| ensures Exportable(rows[i], sep, eol, nCol) {
        if i > 0 { assert rows[i] == rows[1..][i - 1]; }
      }
    }
  }

  lemma {:induction false} FirstIsExportable(rows: seq<Row>, l: Bytes, tail: Bytes, sep: Bytes, eol: Bytes, nCol: nat,
                                             skip: int, lineno: nat)
    requires sep != [] && eol != [] && NUL !in eol && skip <= lineno && rows != []
    requires l == ExportLine(rows[0], sep) && (|rows| == 1 ==> tail == [])
    requires ImportBytes(l + eol + tail, sep, eol, nCol, skip, lineno) == Import(Imported, rows)
    ensures Exportable(rows[0], sep, eol, nCol)
    ensures ImportBytes(tail, sep, eol, nCol, skip, lineno + 1) == Import(Imported, rows[1..])
  {
    var s := l + eol + tail;
    ImportStep(s, sep, eol, nCol, skip, lineno);
    assert NextLine(s, eol).Line?;
    var t := NextLine(s, eol).text;
    var rest := ImportBytes(s[Consumed(s, eol)..], sep, eol, nCol, skip, lineno + 1);
    assert After([BindAll(Split(t, sep))], rest) == Import(Imported, rows);
    assert rows[0] == BindAll(Split(t, sep)) && rest.rows == rows[1..];
    if eol[|eol| - 1] >= 128 {
      assert EolFrom(s, eol, 0) == NotFound && s[Consumed(s, eol)..] == [];
      assert rest.rows == [];
    }
    FirstLineShort(l, eol, tail);
    EncodedNoLonger(Split(t, sep), sep);
    JoinSplit(t, sep);
    SplitIsClean(t, sep);
  }

  /**
   Importing the file that rows were exported to, behind header lines that are skipped, gives
   back these rows, NULLs included, exactly if every row is exportable.
   */
  lemma ImportInvertsExport(header: seq<Bytes>, rows: seq<Row>, sep: Bytes, eol: Bytes, nCol: nat)
    requires sep != [] && eol != [] && NUL !in eol
    requires forall i :: 0 <= i < |header| ==> Readable(header[i], eol)
    ensures ImportBytes(JoinLines(header + ExportLines(rows, sep), eol), sep, eol, nCol, |header|, 0) ==
            Import(Imported, rows)
       <==> forall i :: 0 <= i < |rows| ==> Exportable(rows[i], sep, eol, nCol)
  {
    hide ReadAll, JoinLines, Readable, Exportable, ImportLines, ExportLine, Closed;
    var ls := ExportLines(rows, sep);
    ReadHeader(header, ls, eol);
    SkipHeader(header, ReadAll(JoinLines(ls, eol), eol), sep, nCol, |header|, 0);
    if ImportBytes(JoinLines(ls, eol), sep, eol, nCol, |header|, |header|) == Import(Imported, rows) {
      ImportedIsExportable(rows, sep, eol, nCol, |header|, |header|);
    }
    if forall i :: 0 <= i < |rows| ==> Exportable(rows[i], sep, eol, nCol) {
      forall i | 0 <= i < |rows| ensures Readable(ls[i], eol) {
        ExportedReadable(rows[i], sep, eol, nCol);
      }
      ReadHeader(ls, [], eol);
      NoLineLeft([], eol);
      assert ls + [] == ls;
      ImportExportedLines(rows, sep, eol, nCol, |header|, |header|);
    }
  }

  // ---------------------------------------------------------------- refused lines

  /** Line `k` of these is not skipped and has the wrong number of fields. */
  predicate IsWrong(lines: seq<Bytes>, sep: Bytes, nCol: nat, skip: int, lineno: nat, k: nat)
    requires sep != [] && k < |lines|
  {
    lineno + k + 1 > skip && |Split(lines[k], sep)| != nCol
  }

  predicate IsFirstWrong(lines: seq<Bytes>, sep: Bytes, nCol: nat, skip: int, lineno: nat, k: nat)
    requires sep != []
  {
    && k < |lines| && IsWrong(lines, sep, nCol, skip, lineno, k)
    && forall j :: 0 <= j < k ==> !IsWrong(lines, sep, nCol, skip, lineno, j)
  }

  /** The import names a line as wrong exactly if it is the first such line. */
  lemma {:induction false} FirstWrongIsReported(r: Reading, sep: Bytes, nCol: nat, skip: int, lineno: nat, k: nat)
    requires sep != []
    ensures ImportLines(r, sep, nCol, skip, lineno).status == WrongColumns(lineno + k + 1)
       <==> IsFirstWrong(r.lines, sep, nCol, skip, lineno, k)
    decreases |r.lines|
  {
    if r.lines != [] {
      var rest := Reading(r.lines[1..], r.unterminated);
      if k > 0 {
        FirstWrongIsReported(rest, sep, nCol, skip, lineno + 1, k - 1);
        FirstWrongStep(r.lines, sep, nCol, skip, lineno, k);
      } else if !IsWrong(r.lines, sep, nCol, skip, lineno, 0) {
        NotBefore(rest, sep, nCol, skip, lineno + 1, lineno + 1);
      }
    }
  }

  lemma FirstWrongStep(lines: seq<Bytes>, sep: Bytes, nCol: nat, skip: int, lineno: nat, k: nat)
    requires sep != [] && lines != [] && k > 0
    ensures IsFirstWrong(lines, sep, nCol, skip, lineno, k) <==>
            !IsWrong(lines, sep, nCol, skip, lineno, 0) && IsFirstWrong(lines[1..], sep, nCol, skip, lineno + 1, k - 1)
  {
    var rest, next := lines[1..], lineno + 1;
    forall j | 0 <= j < |rest|
      ensures IsWrong(rest, sep, nCol, skip, next, j) <==> IsWrong(lines, sep, nCol, skip, lineno, j + 1)
    {
      assert lines[j + 1] == rest[j];
    }
    if !IsWrong(lines, sep, nCol, skip, lineno, 0) && IsFirstWrong(rest, sep, nCol, skip, next, k - 1) {
      forall j | 0 <= j < k ensures !IsWrong(lines, sep, nCol, skip, lineno, j) {
        if j > 0 { assert !IsWrong(rest, sep, nCol, skip, next, j - 1); }
      }
    }
  }

  /** Only lines still to come can be reported. */
  lemma {:induction false} NotBefore(r: Reading, sep: Bytes, nCol: nat, skip: int, lineno: nat, reported: nat)
    requires sep != [] && reported <= lineno
    ensures ImportLines(r, sep, nCol, skip, lineno).status != WrongColumns(reported)
    decreases |r.lines|
  {
    if r.lines != [] {
      NotBefore(Reading(r.lines[1..], r.unterminated), sep, nCol, skip, lineno + 1, reported);
    }
  }
}
