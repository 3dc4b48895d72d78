/**
 Whole sessions on one result: any series of dbBind(), dbFetch() and dbColumnInfo() calls, what
 each of them answers, and what the answers come to together (src/SqliteResultImpl.cpp).
 */
module Sessions {
  import opened Wrappers
  import opened Values
  import opened ColumnSpec
  import opened FetchLaws
  import opened ResultDataFrame
  import opened Binding
  import opened ResultSet

  /** A prepared statement: its result columns, its rows for given values, its placeholders. */
  datatype Statement = Statement(sources: seq<Source>, query: Query, nparams: nat) {
    ghost predicate Valid() {
      (forall s :: s in sources ==> s.Valid()) && WideQuery(query, |sources|)
    }

    predicate Accepts(params: seq<seq<Cell>>) {
      nparams > 0 && |params| == nparams && Rectangular(params, |params[0]|)
    }
  }

  /** Where a session stands: the rows of the current binding, how many were handed out, the types. */
  datatype Place = Place(bound: bool, all: seq<Row>, pos: nat, types: seq<DataType>) {
    ghost predicate Fits(st: Statement) {
      st.Valid() && pos <= |all| && Wide(all, |st.sources|) && |types| == |st.sources|
    }
  }

  datatype Call = DbFetch(n: int) | DbColumnInfo | DbBind(params: seq<seq<Cell>>)

  datatype Reply = Frame(f: Fetched) | Info(types: seq<string>) | Bound | Refused

  // ---------------------------------------------------------------- one call

  /** The rows that a call looks at, if it looks at any; without a binding a peek meets NULLs. */
  function LooksAt(st: Statement, p: Place, call: Call): (rows: Option<seq<Row>>)
    requires p.pos <= |p.all|
  {
    match call
    case DbFetch(n) => if p.bound then Some(Looked(p.all, p.pos, n)) else None
    case DbColumnInfo => Some(if p.bound then Looked(p.all, p.pos, 0) else [seq(|st.sources|, _ => Null)])
    case DbBind(_) => None
  }

  lemma LooksWide(st: Statement, p: Place, call: Call)
    requires p.Fits(st) && LooksAt(st, p, call).Some?
    ensures Wide(LooksAt(st, p, call).value, |st.sources|)
  {}

  /** The position after a call that does not bind. */
  function PosAfter(p: Place, call: Call): (pos: nat)
    requires p.pos <= |p.all|
    ensures p.pos <= pos <= |p.all|
  {
    if p.bound && call.DbFetch? then EndAfter(p.pos, call.n, |p.all|) else p.pos
  }

  function TypesAfter(st: Statement, p: Place, call: Call): (types: seq<DataType>)
    requires p.Fits(st)
    ensures |types| == |st.sources|
  {
    match LooksAt(st, p, call)
    case None => p.types
    case Some(rows) =>
      LooksWide(st, p, call);
      seq(|st.sources|, j requires 0 <= j < |st.sources| =>
        Remembered(st.sources[j], p.types[j], ColumnCells(rows, j)))
  }

  /** Where a call leads. */
  function After(st: Statement, p: Place, call: Call): (q: Place)
    requires p.Fits(st)
  {
    if call.DbBind? then
      if st.Accepts(call.params) then Place(true, RowsFrom(st.query, call.params, |call.params[0]|, 0), 0, p.types)
      else p
    else p.(pos := PosAfter(p, call), types := TypesAfter(st, p, call))
  }

  lemma AfterFits(st: Statement, p: Place, call: Call)
    requires p.Fits(st)
    ensures After(st, p, call).Fits(st)
  {
    if call.DbBind? && st.Accepts(call.params) {
      RowsFromWide(st.query, call.params, |call.params[0]|, 0, |st.sources|);
    }
  }

  /** What a call must answer: the specified columns, the types, or a refusal that is due. */
  ghost predicate Answers(st: Statement, p: Place, call: Call, reply: Reply)
    requires p.Fits(st)
  {
    match call
    case DbFetch(n) =>
      if p.bound then
        LooksWide(st, p, call);
        reply.Frame? && FetchResult(st.sources, p.types, Looked(p.all, p.pos, n), PosAfter(p, call) - p.pos, reply.f)
      else reply == Refused
    case DbColumnInfo =>
      var types := TypesAfter(st, p, call);
      reply == Info(seq(|types|, j requires 0 <= j < |types| => TypeName(types[j])))
    case DbBind(params) => reply == if st.Accepts(params) then Bound else Refused
  }

  // ---------------------------------------------------------------- a series of calls

  function AfterAll(st: Statement, p: Place, calls: seq<Call>): (q: Place)
    requires p.Fits(st)
    ensures q.Fits(st)
    decreases |calls|
  {
    if calls == [] then p
    else
      AfterFits(st, p, calls[0]);
      AfterAll(st, After(st, p, calls[0]), calls[1..])
  }

  ghost predicate AnswersAll(st: Statement, p: Place, calls: seq<Call>, replies: seq<Reply>)
    requires p.Fits(st)
    decreases |calls|
  {
    && |calls| == |replies|
    && (calls != [] ==>
          && Answers(st, p, calls[0], replies[0])
          && (AfterFits(st, p, calls[0]); AnswersAll(st, After(st, p, calls[0]), calls[1..], replies[1..])))
  }

  // ---------------------------------------------------------------- on the object

  ghost function StatementOf(result: SqliteResultImpl): Statement {
    Statement(result.sources, result.query, result.nparams)
  }

  ghost function PlaceOf(result: SqliteResultImpl): Place
    reads result
  {
    if result.ready then Place(true, result.all, result.nrows, result.types) else Place(false, [], 0, result.types)
  }

  lemma PlaceFits(result: SqliteResultImpl)
    requires result.Valid()
    ensures PlaceOf(result).Fits(StatementOf(result))
  {
    result.StandingFacts();
  }

  method PlayFetch(result: SqliteResultImpl, n: int) returns (reply: Reply)
    requires result.Valid() && PlaceOf(result).Fits(StatementOf(result))
    modifies result
    ensures result.Valid()
    ensures Answers(StatementOf(result), old(PlaceOf(result)), Call.DbFetch(n), reply)
    ensures PlaceOf(result) == After(StatementOf(result), old(PlaceOf(result)), Call.DbFetch(n))
  {
    hide SqliteResultImpl.Valid, SqliteResultImpl.Standing, FetchResult, WideQuery, Wide, Remembered, ColumnCells;
    ghost var st, p := StatementOf(result), PlaceOf(result);
    var r := result.Fetch(n);
    if r.Success? {
      LooksWide(st, p, Call.DbFetch(n));
      FrameTypes(st.sources, p.types, Looked(p.all, p.pos, n), PosAfter(p, Call.DbFetch(n)) - p.pos, r.value);
      assert r.value.types == TypesAfter(st, p, Call.DbFetch(n));
    }
    reply := if r.Success? then Frame(r.value) else Refused;
  }

  method PlayInfo(result: SqliteResultImpl) returns (reply: Reply)
    requires result.Valid() && PlaceOf(result).Fits(StatementOf(result))
    modifies result
    ensures result.Valid()
    ensures Answers(StatementOf(result), old(PlaceOf(result)), Call.DbColumnInfo, reply)
    ensures PlaceOf(result) == After(StatementOf(result), old(PlaceOf(result)), Call.DbColumnInfo)
  {
    hide SqliteResultImpl.Standing, WideQuery, Wide, Remembered, TypeName, ColumnCells;
    ghost var st, p := StatementOf(result), PlaceOf(result);
    var types := result.GetColumnInfo();
    if !p.bound {
      assert result.Next()[0] == LooksAt(st, p, Call.DbColumnInfo).value[0];
    }
    assert result.Next() == LooksAt(st, p, Call.DbColumnInfo).value;
    assert result.types == TypesAfter(st, p, Call.DbColumnInfo);
    reply := Info(types);
  }

  method PlayBind(result: SqliteResultImpl, params: seq<seq<Cell>>) returns (reply: Reply)
    requires result.Valid() && PlaceOf(result).Fits(StatementOf(result))
    modifies result
    ensures result.Valid()
    ensures Answers(StatementOf(result), old(PlaceOf(result)), Call.DbBind(params), reply)
    ensures PlaceOf(result) == After(StatementOf(result), old(PlaceOf(result)), Call.DbBind(params))
  {
    hide SqliteResultImpl.Valid, SqliteResultImpl.Standing, WideQuery, Wide, RowsFrom;
    var r := result.Bind(params);
    reply := if r.Success? then Bound else Refused;
  }

  /** One call on the object answers as specified and leads where it should. */
  method PlayOne(result: SqliteResultImpl, call: Call) returns (reply: Reply)
    requires result.Valid() && PlaceOf(result).Fits(StatementOf(result))
    modifies result
    ensures result.Valid()
    ensures Answers(StatementOf(result), old(PlaceOf(result)), call, reply)
    ensures PlaceOf(result) == After(StatementOf(result), old(PlaceOf(result)), call)
  {
    match call
    case DbFetch(n) => reply := PlayFetch(result, n);
    case DbColumnInfo => reply := PlayInfo(result);
    case DbBind(params) => reply := PlayBind(result, params);
  }

  /** So does every series of calls, bound or not, with any number of new bindings. */
  method Play(result: SqliteResultImpl, calls: seq<Call>) returns (replies: seq<Reply>)
    requires result.Valid() && PlaceOf(result).Fits(StatementOf(result))
    modifies result
    ensures result.Valid()
    ensures AnswersAll(StatementOf(result), old(PlaceOf(result)), calls, replies)
    ensures PlaceOf(result) == AfterAll(StatementOf(result), old(PlaceOf(result)), calls)
    decreases |calls|
  {
    if calls == [] {
      return [];
    }
    var reply := PlayOne(result, calls[0]);
    PlaceFits(result);
    replies := Play(result, calls[1..]);
    replies := [reply] + replies;
  }

  // ---------------------------------------------------------------- what the answers come to

  lemma {:induction false} AfterSplits(st: Statement, p: Place, a: seq<Call>, b: seq<Call>)
    requires p.Fits(st)
    ensures AfterAll(st, p, a + b) == AfterAll(st, AfterAll(st, p, a), b)
    decreases |a|
  {
    if a == [] {
      assert a + b == b;
    } else {
      assert (a + b)[1..] == a[1..] + b;
      AfterFits(st, p, a[0]);
      AfterSplits(st, After(st, p, a[0]), a[1..], b);
    }
  }

  /** A session can be cut anywhere: the second part goes on where the first one led. */
  lemma {:induction false} SessionSplits(st: Statement, p: Place, a: seq<Call>, b: seq<Call>,
                                         ra: seq<Reply>, rb: seq<Reply>)
    requires p.Fits(st) && |a| == |ra|
    ensures AnswersAll(st, p, a + b, ra + rb) <==> AnswersAll(st, p, a, ra) && AnswersAll(st, AfterAll(st, p, a), b, rb)
    decreases |a|
  {
    if a == [] {
      assert a + b == b && ra + rb == rb;
    } else {
      hide Answers, After, Place.Fits;
      assert (a + b)[1..] == a[1..] + b && (ra + rb)[1..] == ra[1..] + rb;
      AfterFits(st, p, a[0]);
      SessionSplits(st, After(st, p, a[0]), a[1..], b, ra[1..], rb);
    }
  }

  /** A series of calls that keeps the binding: every attempt to bind again is refused. */
  predicate KeepsBinding(st: Statement, calls: seq<Call>) {
    forall c :: c in calls && c.DbBind? ==> !st.Accepts(c.params)
  }

  /** What the calls ask for in total: everything if one of them does, otherwise the sum. */
  function TotalLimit(calls: seq<Call>): int {
    if calls == [] then 0
    else
      var n, rest := if calls[0].DbFetch? then calls[0].n else 0, TotalLimit(calls[1..]);
      if n < 0 || rest < 0 then -1 else n + rest
  }

  /** The row count depends only on what was asked for in total, never on peeks. */
  lemma {:induction false} SessionPosition(st: Statement, p: Place, calls: seq<Call>)
    requires p.Fits(st) && p.bound && KeepsBinding(st, calls)
    ensures var q := AfterAll(st, p, calls);
            q.bound && q.all == p.all && q.pos == EndAfter(p.pos, TotalLimit(calls), |p.all|)
    decreases |calls|
  {
    if calls != [] {
      AfterFits(st, p, calls[0]);
      SessionPosition(st, After(st, p, calls[0]), calls[1..]);
    }
  }

  /** The rows handed out by a series of calls, over all its bindings. */
  function HandedOut(st: Statement, p: Place, calls: seq<Call>): (rows: seq<Row>)
    requires p.Fits(st)
    ensures Wide(rows, |st.sources|)
    decreases |calls|
  {
    if calls == [] then []
    else
      AfterFits(st, p, calls[0]);
      p.all[p.pos..PosAfter(p, calls[0])] + HandedOut(st, After(st, p, calls[0]), calls[1..])
  }

  /** Within one binding they are, in order, the next rows of the result. */
  lemma {:induction false} SessionHandsOut(st: Statement, p: Place, calls: seq<Call>)
    requires p.Fits(st) && p.bound && KeepsBinding(st, calls)
    ensures HandedOut(st, p, calls) == p.all[p.pos..EndAfter(p.pos, TotalLimit(calls), |p.all|)]
    decreases |calls|
  {
    SessionPosition(st, p, calls);
    if calls != [] {
      var q := After(st, p, calls[0]);
      AfterFits(st, p, calls[0]);
      SessionPosition(st, q, calls[1..]);
      SessionHandsOut(st, q, calls[1..]);
    }
  }

  /** What each call looks at in one column. */
  function Looks(st: Statement, p: Place, calls: seq<Call>, j: nat): (looks: seq<Look>)
    requires p.Fits(st) && j < |st.sources|
    decreases |calls|
  {
    if calls == [] then []
    else
      AfterFits(st, p, calls[0]);
      OneLook(st, p, calls[0], j) + Looks(st, After(st, p, calls[0]), calls[1..], j)
  }

  function OneLook(st: Statement, p: Place, call: Call, j: nat): (looks: seq<Look>)
    requires p.Fits(st) && j < |st.sources|
    ensures |looks| <= 1
  {
    match LooksAt(st, p, call)
    case None => []
    case Some(rows) =>
      LooksWide(st, p, call);
      [Look(ColumnCells(rows, j), call.DbFetch? && call.n != 0)]
  }

  /** One column of a reply. */
  function SlotsOf(reply: Reply, j: nat): seq<Slot> {
    if reply.Frame? && j < |reply.f.columns| then reply.f.columns[j] else []
  }

  /** One column of all frames that were answered, put together. */
  function AllSlots(replies: seq<Reply>, j: nat): seq<Slot> {
    if replies == [] then [] else SlotsOf(replies[0], j) + AllSlots(replies[1..], j)
  }

  lemma AnswerSlots(st: Statement, p: Place, call: Call, reply: Reply, j: nat)
    requires p.Fits(st) && j < |st.sources| && Answers(st, p, call, reply)
    ensures var looks := OneLook(st, p, call, j);
            && (looks == [] ==> SlotsOf(reply, j) == [] && After(st, p, call).types == p.types)
            && (looks != [] ==>
                  && SlotsOf(reply, j) ==
                     (if looks[0].kept then Column(st.sources[j], p.types[j], looks[0].cells) else [])
                  && After(st, p, call).types[j] == Remembered(st.sources[j], p.types[j], looks[0].cells))
  {
    hide Column, Remembered;
    if call.DbFetch? && p.bound {
      var rows, n := Looked(p.all, p.pos, call.n), PosAfter(p, call) - p.pos;
      LooksWide(st, p, call);
      assert ColumnResult(st.sources[j], p.types[j], ColumnCells(rows, j), n, reply.f, j);
      assert call.n != 0 ==> n == |rows|;
    }
  }

  /** The cells handed out are those of the looks that keep their rows. */
  lemma AnswerCells(st: Statement, p: Place, call: Call, j: nat)
    requires p.Fits(st) && j < |st.sources|
    ensures var looks := OneLook(st, p, call, j);
            ColumnCells(p.all[p.pos..PosAfter(p, call)], j) ==
            if looks != [] && looks[0].kept then looks[0].cells else []
  {}

  /** The columns of all frames are, one after the other, those of the looks of the session. */
  lemma {:induction false} SessionSlots(st: Statement, p: Place, calls: seq<Call>, replies: seq<Reply>, j: nat)
    requires p.Fits(st) && j < |st.sources| && AnswersAll(st, p, calls, replies)
    ensures AllSlots(replies, j) == Parts(st.sources[j], p.types[j], Looks(st, p, calls, j))
    decreases |calls|
  {
    if calls != [] {
      hide Answers, After, Place.Fits, Column, Remembered, OneLook, SlotsOf;
      var one, q := OneLook(st, p, calls[0], j), After(st, p, calls[0]);
      AfterFits(st, p, calls[0]);
      AnswerSlots(st, p, calls[0], replies[0], j);
      SessionSlots(st, q, calls[1..], replies[1..], j);
      var rest := Looks(st, q, calls[1..], j);
      if one == [] {
        assert Looks(st, p, calls, j) == rest;
      } else {
        assert Looks(st, p, calls, j)[0] == one[0] && Looks(st, p, calls, j)[1..] == rest;
      }
    }
  }

  lemma {:induction false} SessionCells(st: Statement, p: Place, calls: seq<Call>, j: nat)
    requires p.Fits(st) && j < |st.sources|
    ensures Kept(Looks(st, p, calls, j)) == ColumnCells(HandedOut(st, p, calls), j)
    decreases |calls|
  {
    if calls != [] {
      hide After, Place.Fits, OneLook;
      var one, q := OneLook(st, p, calls[0], j), After(st, p, calls[0]);
      AfterFits(st, p, calls[0]);
      AnswerCells(st, p, calls[0], j);
      SessionCells(st, q, calls[1..], j);
      var rest := Looks(st, q, calls[1..], j);
      if one == [] {
        assert Looks(st, p, calls, j) == rest;
      } else {
        assert Looks(st, p, calls, j)[0] == one[0] && Looks(st, p, calls, j)[1..] == rest;
      }
      CellsConcat(p.all[p.pos..PosAfter(p, calls[0])], HandedOut(st, q, calls[1..]), |st.sources|, j);
    }
  }

  lemma CellsConcat(a: seq<Row>, b: seq<Row>, ncols: nat, j: nat)
    requires Wide(a, ncols) && Wide(b, ncols) && j < ncols
    ensures ColumnCells(a + b, j) == ColumnCells(a, j) + ColumnCells(b, j)
  {}

  /**
   Within one binding, any column of all frames together is the column of a single fetch of
   the same rows exactly if all looks, peeks included, agree with that fetch.
   */
  lemma SessionIsOneFetch(st: Statement, p: Place, calls: seq<Call>, replies: seq<Reply>, j: nat)
    requires p.Fits(st) && p.bound && KeepsBinding(st, calls) && AnswersAll(st, p, calls, replies) && j < |st.sources|
    ensures var src, t, rows := st.sources[j], p.types[j], p.all[p.pos..EndAfter(p.pos, TotalLimit(calls), |p.all|)];
            && Wide(rows, |st.sources|)
            && (AllSlots(replies, j) == Column(src, t, ColumnCells(rows, j)) <==>
                AllAgree(src, t, t, Looks(st, p, calls, j), Remembered(src, t, ColumnCells(rows, j))))
  {
    hide Column, AllAgree, Remembered, Answers, After;
    SessionSlots(st, p, calls, replies, j);
    SessionCells(st, p, calls, j);
    SessionHandsOut(st, p, calls);
    PartsAgree(st.sources[j], p.types[j], Looks(st, p, calls, j));
  }

  // ---------------------------------------------------------------- types over a session

  lemma {:induction false} TypesLater(st: Statement, p: Place, calls: seq<Call>, j: nat)
    requires p.Fits(st) && j < |st.sources| && p.types[j] !in {Unknown, Bool}
    ensures var u := AfterAll(st, p, calls).types[j]; u == p.types[j] || (p.types[j] == Int && u in {Int64, Real})
    decreases |calls|
  {
    if calls != [] {
      AfterFits(st, p, calls[0]);
      var q := After(st, p, calls[0]);
      if LooksAt(st, p, calls[0]).Some? {
        LooksWide(st, p, calls[0]);
        RememberedEvolves(st.sources[j], p.types[j], ColumnCells(LooksAt(st, p, calls[0]).value, j));
      }
      TypesLater(st, q, calls[1..], j);
    }
  }

  /**
   Over a whole session, new bindings included, a column type that is known after `a` changes
   at most once, and only from INT: after `b` it is that type or the one it still has after `c`.
   */
  lemma SessionTypes(st: Statement, p: Place, a: seq<Call>, b: seq<Call>, c: seq<Call>, j: nat)
    requires p.Fits(st) && j < |st.sources| && AfterAll(st, p, a).types[j] !in {Unknown, Bool}
    ensures var first, mid := AfterAll(st, p, a).types[j], AfterAll(st, p, a + b).types[j];
            var last := AfterAll(st, p, a + b + c).types[j];
            && (mid == first || mid == last)
            && (mid != first ==> first == Int && mid in {Int64, Real})
  {
    AfterSplits(st, p, a, b);
    AfterSplits(st, p, a + b, c);
    var q := AfterAll(st, p, a);
    TypesLater(st, q, b, j);
    TypesLater(st, AfterAll(st, q, b), c, j);
  }
}
