/**
 Quoting of identifiers with backticks, and the anchored grammar by which a quoted
 `schema.table` is taken apart again.
 (R/dbQuoteIdentifier_SQLiteConnection_character.R, R/dbUnquoteIdentifier_SQLiteConnection_SQL.R)
 */
module Identifiers {
  import opened Wrappers

  const BQ := '`'
  const DOT := '.'
  const SPACE := ' '

  datatype QuoteError = NaIdentifier

  datatype UnquoteError = CannotUnquote(text: string)

  /** A table reference; an absent or empty part is not listed. */
  datatype Id = Id(schema: Option<string>, table: Option<string>)

  // ---------------------------------------------------------------- quoting

  function Double(x: string): string {
    if x == "" then ""
    else if x[0] == BQ then [BQ, BQ] + Double(x[1..])
    else [x[0]] + Double(x[1..])
  }

  /** Leftmost, non-overlapping replacement of two backticks by one. */
  function Undouble(x: string): string {
    if x == "" then ""
    else if |x| >= 2 && x[0] == BQ && x[1] == BQ then [BQ] + Undouble(x[2..])
    else [x[0]] + Undouble(x[1..])
  }

  function Quote(x: string): string {
    [BQ] + Double(x) + [BQ]
  }

  function QuoteIdentifiers(xs: seq<Option<string>>): Result<seq<string>, QuoteError> {
    if None in xs then Failure(NaIdentifier)
    else Success(seq(|xs|, i requires 0 <= i < |xs| => Quote(xs[i].value)))
  }

  // ---------------------------------------------------------------- the grammar

  /** A string over the units "any character but a backtick" and "two backticks". */
  predicate Doubled(u: string) {
    u == ""
    || (u[0] != '`' && Doubled(u[1..]))
    || (|u| >= 2 && u[0] == '`' && u[1] == '`' && Doubled(u[2..]))
  }

  predicate IsPlain(s: string) {
    s != "" && forall i :: 0 <= i < |s| ==> s[i] !in {'`', '.', ' '}
  }

  /** `s` is one identifier whose capture groups read `name`. */
  predicate MatchesId(s: string, name: string): (r: bool)
    ensures r ==> s != "" && name != ""
  {
    || (name != "" && Doubled(name) && s == ['`'] + name + ['`'])
    || (IsPlain(s) && name == s)
  }

  ghost predicate MatchesSchema(p: string, schema: string) {
    || (p == "" && schema == "")
    || (p != "" && p[|p| - 1] == '.' && MatchesId(p[..|p| - 1], schema))
  }

  ghost predicate MatchesTable(q: string, table: string) {
    || (q == "" && table == "")
    || MatchesId(q, table)
  }

  /** The anchored pattern as a whole, split after `k` characters. */
  ghost predicate MatchesAt(s: string, k: nat, schema: string, table: string) {
    k <= |s| && MatchesSchema(s[..k], schema) && MatchesTable(s[k..], table)
  }

  ghost predicate Matches(s: string, schema: string, table: string) {
    exists k: nat :: MatchesAt(s, k, schema, table)
  }

  // ---------------------------------------------------------------- a deterministic reading

  /** Length of the doubled text that a lone backtick closes, if there is one. */
  function ClosingAt(s: string): (r: Option<nat>)
    ensures r.Some? ==> r.value < |s| && s[r.value] == BQ && Doubled(s[..r.value])
    ensures r.Some? && r.value + 1 < |s| ==> s[r.value + 1] != BQ
  {
    if s == "" then None
    else if s[0] != BQ then
      match ClosingAt(s[1..])
      case None => None
      case Some(n) => assert s[..n + 1][1..] == s[1..][..n]; Some(n + 1)
    else if |s| >= 2 && s[1] == BQ then
      match ClosingAt(s[2..])
      case None => None
      case Some(n) => assert s[..n + 2][2..] == s[2..][..n]; Some(n + 2)
    else Some(0)
  }

  function PlainLength(s: string): (n: nat)
    ensures n <= |s| && (n > 0 ==> IsPlain(s[..n]))
    ensures n < |s| ==> s[n] in {BQ, DOT, SPACE}
  {
    if s == "" || s[0] in {BQ, DOT, SPACE} then 0
    else
      var n := PlainLength(s[1..]);
      assert s[..n + 1] == [s[0]] + s[1..][..n];
      1 + n
  }

  /** An identifier and the text after it. */
  datatype Read = Read(name: string, rest: string)

  function ReadId(s: string): Option<Read> {
    if s != "" && s[0] == BQ then
      match ClosingAt(s[1..])
      case None => None
      case Some(n) => if n == 0 then None else Some(Read(s[1..n + 1], s[n + 2..]))
    else
      var n := PlainLength(s);
      if n == 0 then None else Some(Read(s[..n], s[n..]))
  }

  /** The capture groups of schema and table, or None when the pattern does not match. */
  function Parse(s: string): Option<(string, string)> {
    if s == "" then Some(("", "")) else
    match ReadId(s)
    case None => None
    case Some(Read(first, rest)) =>
      if rest == "" then Some(("", first))
      else if rest[0] != DOT then None
      else if rest == [DOT] then Some((first, ""))
      else
        match ReadId(rest[1..])
        case Some(Read(second, tail)) => if tail == "" then Some((first, second)) else None
        case None => None
  }

  function OmitEmpty(x: string): Option<string> {
    if x == "" then None else Some(x)
  }

  function Unquote(s: string): Result<Id, UnquoteError> {
    match Parse(s)
    case None => Failure(CannotUnquote(s))
    case Some((schema, table)) => Success(Id(OmitEmpty(Undouble(schema)), OmitEmpty(Undouble(table))))
  }

  function FirstBad(xs: seq<string>): Option<string> {
    if xs == [] then None
    else if Parse(xs[0]).None? then Some(xs[0])
    else FirstBad(xs[1..])
  }

  function UnquoteIdentifiers(xs: seq<string>): Result<seq<Id>, UnquoteError> {
    match FirstBad(xs)
    case Some(x) => Failure(CannotUnquote(x))
    case None => NoneBad(xs); Success(seq(|xs|, i requires 0 <= i < |xs| => Unquote(xs[i]).value))
  }

  lemma {:induction false} NoneBad(xs: seq<string>)
    ensures FirstBad(xs).None? <==> forall i :: 0 <= i < |xs| ==> Parse(xs[i]).Some?
  {
    if xs != [] {
      NoneBad(xs[1..]);
      if FirstBad(xs).None? {
        forall i | 0 <= i < |xs| ensures Parse(xs[i]).Some? {
          if i > 0 { assert xs[i] == xs[1..][i - 1]; }
        }
      }
    }
  }

  /** The error names the first string that does not match. */
  lemma {:induction false} FirstBadIs(xs: seq<string>, i: nat)
    requires i < |xs| && Parse(xs[i]).None? && forall k :: 0 <= k < i ==> Parse(xs[k]).Some?
    ensures UnquoteIdentifiers(xs) == Failure(CannotUnquote(xs[i]))
    decreases i
  {
    if i > 0 {
      FirstBadIs(xs[1..], i - 1);
    }
  }

  // ---------------------------------------------------------------- doubling

  lemma {:induction false} UndoubleDouble(x: string)
    ensures Undouble(Double(x)) == x
  {
    if x != "" {
      UndoubleDouble(x[1..]);
      if x[0] == BQ {
        assert Double(x)[2..] == Double(x[1..]);
      } else {
        assert Double(x)[1..] == Double(x[1..]);
      }
    }
  }

  /** Doubling produces exactly the texts that the quoted form of the grammar accepts. */
  lemma {:induction false} DoubledDouble(x: string)
    ensures Doubled(Double(x)) && (Double(x) == "" <==> x == "")
  {
    if x != "" {
      DoubledDouble(x[1..]);
      if x[0] == BQ {
        assert Double(x)[2..] == Double(x[1..]);
      } else {
        assert Double(x)[1..] == Double(x[1..]);
      }
    }
  }

  lemma {:induction false} DoubleUndouble(u: string)
    requires Doubled(u)
    ensures Double(Undouble(u)) == u && (Undouble(u) == "" <==> u == "")
  {
    if u != "" {
      if u[0] != BQ {
        DoubleUndouble(u[1..]);
        assert Undouble(u)[1..] == Undouble(u[1..]);
      } else {
        DoubleUndouble(u[2..]);
        assert Undouble(u)[1..] == Undouble(u[2..]);
        assert u == [BQ, BQ] + u[2..];
      }
    }
  }

  // ---------------------------------------------------------------- the reading is the grammar

  /** A doubled text ends exactly at the first backtick run of odd length. */
  lemma {:induction false} ClosingAtDoubled(u: string, rest: string)
    requires Doubled(u) && (rest == "" || rest[0] != BQ)
    ensures ClosingAt(u + [BQ] + rest) == Some(|u|)
  {
    var s := u + [BQ] + rest;
    if u == "" {
      assert s[0] == BQ && (|s| == 1 || s[1] == rest[0]);
    } else if u[0] != BQ {
      assert s[0] == u[0] && s[1..] == u[1..] + [BQ] + rest;
      ClosingAtDoubled(u[1..], rest);
    } else {
      assert s[0] == u[0] && s[1] == u[1] && s[2..] == u[2..] + [BQ] + rest;
      ClosingAtDoubled(u[2..], rest);
    }
  }

  lemma {:induction false} PlainLengthIs(p: string, rest: string)
    requires forall i :: 0 <= i < |p| ==> p[i] !in {BQ, DOT, SPACE}
    requires rest == "" || rest[0] in {BQ, DOT, SPACE}
    ensures PlainLength(p + rest) == |p|
  {
    if p == "" {
      assert p + rest == rest;
    } else {
      assert (p + rest)[1..] == p[1..] + rest && (p + rest)[0] == p[0];
      PlainLengthIs(p[1..], rest);
    }
  }

  /** Before a dot or the end, exactly the identifiers of the grammar are read, whole. */
  lemma ReadIdComplete(p: string, name: string, rest: string)
    requires MatchesId(p, name) && (rest == "" || rest[0] == DOT)
    ensures ReadId(p + rest) == Some(Read(name, rest))
  {
    if name != "" && Doubled(name) && p == [BQ] + name + [BQ] {
      hide Doubled, ClosingAt;
      ClosingAtDoubled(name, rest);
      var s := p + rest;
      assert s == [BQ] + name + [BQ] + rest;
      assert s[1..] == name + [BQ] + rest;
      assert s[1..|name| + 1] == name && s[|name| + 2..] == rest;
    } else {
      PlainLengthIs(p, rest);
      assert (p + rest)[..|p|] == p && (p + rest)[|p|..] == rest;
    }
  }

  lemma ReadIdSound(s: string) returns (p: string)
    requires ReadId(s).Some?
    ensures var Read(name, rest) := ReadId(s).value; s == p + rest && MatchesId(p, name) && p != ""
  {
    var Read(name, rest) := ReadId(s).value;
    p := s[..|s| - |rest|];
    if s[0] == BQ {
      var n := ClosingAt(s[1..]).value;
      assert name == s[1..][..n] && s[n + 1] == s[1..][n] == BQ;
      assert p == [BQ] + name + [BQ];
    }
  }

  lemma ParseComplete(s: string, k: nat, schema: string, table: string)
    requires MatchesAt(s, k, schema, table)
    ensures Parse(s) == Some((schema, table))
  {
    hide MatchesId, ReadId;
    var p, q := s[..k], s[k..];
    assert s == p + q;
    if q != "" {
      ReadIdComplete(q, table, "");
      assert q + "" == q;
    }
    if p != "" {
      var id := p[..|p| - 1];
      assert s == id + ([DOT] + q);
      ReadIdComplete(id, schema, [DOT] + q);
      assert ([DOT] + q)[1..] == q;
    } else {
      assert s == q;
    }
  }

  lemma ParseSound(s: string, schema: string, table: string)
    requires Parse(s) == Some((schema, table))
    ensures Matches(s, schema, table)
  {
    hide MatchesId, ReadId;
    if s == "" {
      assert MatchesAt(s, 0, schema, table);
    } else {
      var p := ReadIdSound(s);
      var rest := ReadId(s).value.rest;
      if rest == "" {
        assert s[..0] == "" && s[0..] == p;
        assert MatchesAt(s, 0, schema, table);
      } else {
        var k := |p| + 1;
        assert s[..k] == p + [DOT] && s[k..] == rest[1..];
        assert s[..k][..k - 1] == p;
        if rest != [DOT] {
          var q := ReadIdSound(rest[1..]);
          assert rest[1..] == q + "" == q;
        }
        assert MatchesAt(s, k, schema, table);
      }
    }
  }

  /** Whatever order a regular-expression engine tries, the groups it finds are these. */
  lemma ParseIsGrammar(s: string, schema: string, table: string)
    ensures Matches(s, schema, table) <==> Parse(s) == Some((schema, table))
  {
    if Matches(s, schema, table) {
      var k: nat :| MatchesAt(s, k, schema, table);
      ParseComplete(s, k, schema, table);
    }
    if Parse(s) == Some((schema, table)) {
      ParseSound(s, schema, table);
    }
  }

  /** Every accepted string has one schema/table split. */
  lemma SplitIsUnique(s: string, j: nat, schema: string, table: string, k: nat, schema': string, table': string)
    requires MatchesAt(s, j, schema, table) && MatchesAt(s, k, schema', table')
    ensures j == k && schema == schema' && table == table'
  {
    ParseComplete(s, j, schema, table);
    ParseComplete(s, k, schema', table');
    SplitLength(s, j, schema, table);
    SplitLength(s, k, schema', table');
  }

  /** The split position follows from what is read first. */
  lemma SplitLength(s: string, k: nat, schema: string, table: string)
    requires MatchesAt(s, k, schema, table)
    ensures k == if s == "" || ReadId(s).None? || ReadId(s).value.rest == "" then 0
                 else |s| - |ReadId(s).value.rest| + 1
  {
    hide MatchesId, ReadId;
    var p, q := s[..k], s[k..];
    assert s == p + q;
    if p != "" {
      var id := p[..|p| - 1];
      assert s == id + ([DOT] + q);
      ReadIdComplete(id, schema, [DOT] + q);
    } else if q != "" {
      ReadIdComplete(q, table, "");
      assert q + "" == q == s;
    }
  }

  // ---------------------------------------------------------------- round trips

  lemma QuotedMatches(x: string)
    requires x != ""
    ensures MatchesId(Quote(x), Double(x))
  {
    DoubledDouble(x);
  }

  lemma EmptyQuotedIsRefused(rest: string)
    requires rest == "" || rest[0] == DOT
    ensures Parse(Quote("") + rest).None?
  {
    var s := Quote("") + rest;
    assert s == [BQ, BQ] + rest;
    assert s[1..] == [BQ] + rest;
    assert ClosingAt(s[1..]) == Some(0) by {
      ClosingAtDoubled("", rest);
      assert "" + [BQ] + rest == [BQ] + rest;
    }
  }

  /** Unquoting gives back exactly the quoted table name; only the empty name is lost. */
  lemma UnquoteInvertsQuote(x: string)
    ensures Unquote(Quote(x)) == Success(Id(None, Some(x))) <==> x != ""
    ensures x == "" ==> Unquote(Quote(x)) == Failure(CannotUnquote(Quote(x)))
  {
    if x == "" {
      EmptyQuotedIsRefused("");
      assert Quote("") + "" == Quote("");
    } else {
      QuotedMatches(x);
      var s := Quote(x);
      assert s[..0] == "" && s[0..] == s;
      ParseComplete(s, 0, "", Double(x));
      UndoubleDouble(x);
    }
  }

  lemma UnquoteInvertsQuotedPair(a: string, b: string)
    ensures Unquote(Quote(a) + [DOT] + Quote(b)) == Success(Id(Some(a), Some(b))) <==> a != "" && b != ""
    ensures a == "" || b == "" ==> Unquote(Quote(a) + [DOT] + Quote(b)).Failure?
  {
    var s := Quote(a) + [DOT] + Quote(b);
    if a == "" {
      EmptyQuotedIsRefused([DOT] + Quote(b));
      assert s == Quote("") + ([DOT] + Quote(b));
    } else {
      QuotedMatches(a);
      if b == "" {
        assert s == Quote(a) + ([DOT] + Quote(""));
        ReadIdComplete(Quote(a), Double(a), [DOT] + Quote(""));
        assert ([DOT] + Quote(""))[1..] == Quote("");
        EmptyQuotedIsRefused("");
        assert Quote("") + "" == Quote("");
      } else {
        QuotedMatches(b);
        var k := |Quote(a)| + 1;
        assert s[..k] == Quote(a) + [DOT] && s[k..] == Quote(b);
        assert s[..k][..k - 1] == Quote(a);
        ParseComplete(s, k, Double(a), Double(b));
        UndoubleDouble(a);
        UndoubleDouble(b);
      }
    }
  }

  /** Quoting the parts an accepted string was taken apart into, and unquoting again, changes nothing. */
  lemma RequoteIsStable(s: string)
    requires Unquote(s).Success?
    ensures match Unquote(s).value
            case Id(Some(a), Some(b)) => Unquote(Quote(a) + [DOT] + Quote(b)) == Unquote(s)
            case Id(None, Some(b)) => Unquote(Quote(b)) == Unquote(s)
            case Id(Some(a), None) => Unquote(Quote(a) + [DOT]) == Unquote(s)
            case Id(None, None) => s == ""
  {
    match Unquote(s).value
    case Id(Some(a), Some(b)) => UnquoteInvertsQuotedPair(a, b);
    case Id(None, Some(b)) => UnquoteInvertsQuote(b);
    case Id(Some(a), None) =>
      var t := Quote(a) + [DOT];
      QuotedMatches(a);
      assert t[..|t|] == t && t[..|t| - 1] == Quote(a) && t[|t|..] == "";
      ParseComplete(t, |t|, Double(a), "");
      UndoubleDouble(a);
    case Id(None, None) =>
      if s != "" {
        ReadNamesNonEmpty(s);
      }
  }

  lemma ReadNamesNonEmpty(s: string)
    requires ReadId(s).Some?
    ensures ReadId(s).value.name != "" && Undouble(ReadId(s).value.name) != ""
  {}

  /** Whole vectors: quoting fails on NA only, and unquoting gives back all the names unless one is empty. */
  lemma VectorRoundTrip(xs: seq<Option<string>>)
    ensures QuoteIdentifiers(xs).Failure? <==> None in xs
    ensures None !in xs ==>
              (UnquoteIdentifiers(QuoteIdentifiers(xs).value) ==
               Success(seq(|xs|, i requires 0 <= i < |xs| => Id(None, xs[i])))
               <==> Some("") !in xs)
  {
    if None !in xs {
      var qs := QuoteIdentifiers(xs).value;
      NoneBad(qs);
      forall i | 0 <= i < |xs|
        ensures Parse(qs[i]).Some? <==> xs[i] != Some("")
        ensures Parse(qs[i]).Some? ==> Unquote(qs[i]).value == Id(None, xs[i])
      {
        assert xs[i] in xs;
        UnquoteInvertsQuote(xs[i].value);
      }
      if Some("") !in xs {
        var ids := seq(|xs|, i requires 0 <= i < |xs| => Id(None, xs[i]));
        assert UnquoteIdentifiers(qs).Success?;
        assert UnquoteIdentifiers(qs).value == ids;
      } else {
        var i :| 0 <= i < |xs| && xs[i] == Some("");
        assert Parse(qs[i]).None?;
      }
    }
  }
}
