/**
 What a user may rely on in one column: widening after the fact, the mixed-type warning, and
 the growth of the segment list.
 */
module ColumnLaws {
  import opened Bytes
  import opened Wrappers
  import opened Values
  import opened ColumnSpec

  // ---------------------------------------------------------------- widening after the fact

  predicate IsNumber(c: Cell) {
    c.Integer? || c.Float?
  }

  /** The one number whose widening is lost: -2^31 has the representation of NA_integer_. */
  predicate LosesToNA(stored: DataType, to: DataType, c: Cell) {
    stored == Int && to != Int && c == Integer(-2147483648)
  }

  /** With a date or time column every value has the declared type, so nothing is ever widened. */
  lemma {:induction false} DeclaredDateStays(src: Source, t0: DataType, rows: seq<Cell>)
    requires src.Valid() && src.extended && src.decl in {Date, DateTime, Time}
    ensures Initial(t0) != Unknown ==> TypeAfter(src, t0, rows) == Initial(t0)
    ensures Initial(t0) == Unknown ==> TypeAfter(src, t0, rows) in {Unknown, src.decl}
    decreases |rows|
  {
    if rows != [] {
      DeclaredDateStays(src, t0, rows[..|rows| - 1]);
    }
  }

  /** A number that was stored in an INT segment fits in 32 bits, or the column is INT to the end. */
  lemma StoredAsInt(src: Source, t0: DataType, rows: seq<Cell>, k: nat)
    requires src.Valid() && k < |rows| && IsNumber(rows[k])
    requires TypeAfter(src, t0, rows[..k + 1]) == Int && Resolve(src, TypeAfter(src, t0, rows)) != Int
    ensures rows[k].Integer? && !Needs64Bit(rows[k].v)
  {
    if src.extended && src.decl in {Date, DateTime, Time} {
      DeclaredDateStays(src, t0, rows[..k + 1]);
      DeclaredDateStays(src, t0, rows);
    }
    assert rows[..k + 1][..k] == rows[..k];
  }

  /** Slot `k` of the finished column: NA, or the row fetched under its own type and widened. */
  lemma SlotAt(src: Source, t0: DataType, rows: seq<Cell>, k: nat)
    requires src.Valid() && k < |rows|
    ensures var stored, to, c := TypeAfter(src, t0, rows[..k + 1]), Resolve(src, TypeAfter(src, t0, rows)), rows[k];
            && |Column(src, t0, rows)| == |rows|
            && (c.Null? ==> Column(src, t0, rows)[k] == NA(to))
            && (!c.Null? ==>
                  && stored == NextType(TypeAfter(src, t0, rows[..k]), ItemType(src, c))
                  && stored != Unknown && Evolves(stored, to)
                  && Copyable(Fetch(src.co, stored, c), to)
                  && Column(src, t0, rows)[k] == Widen(Fetch(src.co, stored, c), to))
  {
    assert rows[..k + 1][..k] == rows[..k];
    if !rows[k].Null? {
      TypeKnown(src, t0, rows, k);
      FetchHasType(src.co, TypeAfter(src, t0, rows[..k + 1]), rows[k]);
    }
  }

  /**
   A number fetched under the type current at its row and widened later is what fetching it
   under the final type gives, except for -2^31 in an INT segment, which becomes NA.
   */
  lemma WideningAgrees(src: Source, t0: DataType, rows: seq<Cell>, k: nat)
    requires src.Valid() && k < |rows| && IsNumber(rows[k])
    ensures var to := Resolve(src, TypeAfter(src, t0, rows));
            var stored := TypeAfter(src, t0, rows[..k + 1]);
            && (Column(src, t0, rows)[k] == Fetch(src.co, to, rows[k]) <==> !LosesToNA(stored, to, rows[k]))
            && (LosesToNA(stored, to, rows[k]) ==> Column(src, t0, rows)[k] == NA(to))
  {
    hide Column, TypeAfter;
    SlotAt(src, t0, rows, k);
    var to := Resolve(src, TypeAfter(src, t0, rows));
    var stored := TypeAfter(src, t0, rows[..k + 1]);
    if stored != to {
      assert stored == Int && to in {Int64, Real};
      StoredAsInt(src, t0, rows, k);
      Low32Identity(rows[k].v);
      var v: int32 := rows[k].v;
      assert src.co.round(v) == v as real;
    }
  }

  /** Every row fetched directly under one type. */
  function Direct(src: Source, to: DataType, rows: seq<Cell>): (r: seq<Slot>)
    requires to != Unknown
    ensures |r| == |rows|
    ensures forall k :: 0 <= k < |rows| ==> r[k] == if rows[k].Null? then NA(to) else Fetch(src.co, to, rows[k])
  {
    seq(|rows|, k requires 0 <= k < |rows| => if rows[k].Null? then NA(to) else Fetch(src.co, to, rows[k]))
  }

  /** Knowing the type in advance makes no difference to a column of numbers, up to that one value. */
  lemma KnowingTheTypeInAdvance(src: Source, t0: DataType, rows: seq<Cell>)
    requires src.Valid() && forall k :: 0 <= k < |rows| ==> rows[k].Null? || IsNumber(rows[k])
    ensures var to := Resolve(src, TypeAfter(src, t0, rows));
            Column(src, t0, rows) == Direct(src, to, rows) <==>
            forall k :: 0 <= k < |rows| ==> !LosesToNA(TypeAfter(src, t0, rows[..k + 1]), to, rows[k])
  {
    var to := Resolve(src, TypeAfter(src, t0, rows));
    var whole, direct := Column(src, t0, rows), Direct(src, to, rows);
    forall k | 0 <= k < |rows|
      ensures whole[k] == direct[k] <==> !LosesToNA(TypeAfter(src, t0, rows[..k + 1]), to, rows[k])
    {
      if !rows[k].Null? {
        WideningAgrees(src, t0, rows, k);
      }
    }
    if whole != direct {
      var k :| 0 <= k < |rows| && whole[k] != direct[k];
      assert LosesToNA(TypeAfter(src, t0, rows[..k + 1]), to, rows[k]);
    }
  }

  // ---------------------------------------------------------------- the mixed-type warning

  lemma SeenCell(src: Source, rows: seq<Cell>, k: nat)
    requires src.Valid() && k < |rows|
    ensures ItemType(src, rows[k]) in Seen(src, rows)
  {}

  /** Without a conflict every type seen is the column's own or was widened to it. */
  lemma NoConflict(seen: set<DataType>, dt: DataType, item: DataType)
    requires item in seen && Conflicts(seen, dt) == {}
    ensures item in {Unknown, Bool, dt} || (item == Int && dt in {Int64, Real})
  {
    assert item !in Conflicts(seen, dt);
  }

  /**
   A type is named in the warning exactly if some value has it (or any row, where a date or
   time type is declared) and it is not one that leads to the column's own type.
   */
  lemma WarningIsDue(src: Source, t0: DataType, rows: seq<Cell>, t: DataType)
    requires src.Valid()
    ensures var to := Resolve(src, TypeAfter(src, t0, rows));
            t in Conflicts(Seen(src, rows), to) <==>
            && !Evolves(t, to)
            && exists k :: 0 <= k < |rows| && ItemType(src, rows[k]) == t
                           && (!rows[k].Null? || (src.extended && src.decl in {Date, DateTime, Time}))
  {
    hide TypeAfter;
    var to := Resolve(src, TypeAfter(src, t0, rows));
    if t in Conflicts(Seen(src, rows), to) {
      var k :| 0 <= k < |rows| && ItemType(src, rows[k]) == t;
      ItemTypeMeans(src, rows[k]);
    }
    if k :| 0 <= k < |rows| && ItemType(src, rows[k]) == t
            && (!rows[k].Null? || (src.extended && src.decl in {Date, DateTime, Time})) {
      SeenCell(src, rows, k);
      ItemTypeMeans(src, rows[k]);
    }
  }

  /** Values that no R vector of the stored type can tell apart from others. */
  predicate Indistinct(stored: DataType, c: Cell) {
    || (stored == Int && c == Integer(-2147483648))
    || (stored == Int64 && c == Integer(-9223372036854775808))
    || (c.Text? && 0 in c.t)
  }

  /**
   Without a mixed-type warning (and without extended types) every row is read back as its
   own value, exactly up to the values that R represents as NA and to text behind a NUL.
   */
  lemma NoWarningIsLossless(src: Source, t0: DataType, rows: seq<Cell>, k: nat)
    requires src.Valid() && !src.extended && t0 !in {Date, DateTime, DateTimeTz, Time} && k < |rows|
    requires Conflicts(Seen(src, rows), Resolve(src, TypeAfter(src, t0, rows))) == {}
    ensures ReadsAs(Column(src, t0, rows)[k], rows[k]) <==> !Indistinct(TypeAfter(src, t0, rows[..k + 1]), rows[k])
  {
    hide Column, TypeAfter, Seen, Conflicts;
    SlotAt(src, t0, rows, k);
    var c := rows[k];
    var to := Resolve(src, TypeAfter(src, t0, rows));
    if c.Null? {
      FetchHasType(src.co, to, c);
    } else {
      SeenCell(src, rows, k);
      NoConflict(Seen(src, rows), to, ItemType(src, c));
      ValueReads(src, TypeAfter(src, t0, rows[..k]), to, c);
    }
  }

  /** One value, of the column's own type or widened to it. */
  lemma ValueReads(src: Source, before: DataType, to: DataType, c: Cell)
    requires src.Valid() && !src.extended && !c.Null?
    requires ItemType(src, c) == to || (ItemType(src, c) == Int && to in {Int64, Real})
    requires Evolves(NextType(before, ItemType(src, c)), to) && to != Unknown
    ensures var stored := NextType(before, ItemType(src, c));
            && Copyable(Fetch(src.co, stored, c), to)
            && (ReadsAs(Widen(Fetch(src.co, stored, c), to), c) <==> !Indistinct(stored, c))
  {
    match c
    case Integer(v) =>
      if !Needs64Bit(v) {
        Low32Identity(v);
        var w: int32 := v;
        assert src.co.round(w) == w as real;
      }
    case Text(t) =>
      if NUL !in t {
        CStringOfPrefix(t, t);
      }
    case _ =>
  }

  /** What a slot of type `to` holds that was read from a value of any storage class. */
  predicate ReadUnder(co: Engine, to: DataType, c: Cell, s: Slot) {
    var n: int := if c.Integer? then c.v else co.toInt64(c);
    var text := if c.Text? then c.t else co.toText(c);
    match to
    case Int => s.IntSlot? && (n - s.i as int) % 0x1_0000_0000 == 0
    case Int64 => s == Int64Slot(n)
    case Real => s == RealSlot(Num(if c.Float? then c.r else if c.Integer? then co.round(c.v) else co.toReal(c)))
    case String =>
      s.StringSlot? && s.s.Some? && s.s.value <= text && 0 !in s.s.value
      && (|s.s.value| < |text| ==> text[|s.s.value|] == 0)
    case Blob => s == ListSlot(Some(if c.Binary? then c.b else if c.Text? then c.t else co.toBlob(c)))
    case _ => true
  }

  /** A value stored under the final type of its column, whatever its storage class. */
  lemma CoercedValue(src: Source, t0: DataType, rows: seq<Cell>, k: nat)
    requires src.Valid() && k < |rows| && !rows[k].Null?
    requires TypeAfter(src, t0, rows[..k + 1]) == Resolve(src, TypeAfter(src, t0, rows))
    ensures ReadUnder(src.co, Resolve(src, TypeAfter(src, t0, rows)), rows[k], Column(src, t0, rows)[k])
  {
    hide Column, TypeAfter;
    SlotAt(src, t0, rows, k);
    FetchHasType(src.co, Resolve(src, TypeAfter(src, t0, rows)), rows[k]);
  }

  /** Extended types: a date or time column is converted value by value, and never warns. */
  lemma DeclaredDateColumn(src: Source, t0: DataType, rows: seq<Cell>, k: nat)
    requires src.Valid() && src.extended && src.decl in {Date, DateTime, Time} && t0 in {Unknown, Bool, src.decl}
    requires k < |rows|
    ensures Resolve(src, TypeAfter(src, t0, rows)) == src.decl && Conflicts(Seen(src, rows), src.decl) == {}
    ensures Column(src, t0, rows)[k] ==
            RealSlot(if rows[k].Null? then NaReal
                     else if src.decl == Date then src.co.toDate(rows[k])
                     else if src.decl == DateTime then src.co.toDateTime(rows[k])
                     else src.co.toTime(rows[k]))
  {
    DeclaredDateStays(src, t0, rows);
    DeclaredDateStays(src, t0, rows[..k + 1]);
    SlotAt(src, t0, rows, k);
  }

  lemma ColumnHasType(src: Source, t: DataType, rows: seq<Cell>, k: nat)
    requires src.Valid() && k < |rows|
    ensures HasType(Column(src, t, rows)[k], Resolve(src, TypeAfter(src, t, rows)))
  {
    var to := Resolve(src, TypeAfter(src, t, rows));
    if rows[k].Null? {
      FetchHasType(src.co, to, rows[k]);
    } else {
      TypeKnown(src, t, rows, k);
    }
  }

  // ---------------------------------------------------------------- growth

  function Pow2(n: nat): nat {
    if n == 0 then 1 else 2 * Pow2(n - 1)
  }

  function Last(segs: seq<Segment>): Segment
    requires segs != []
  {
    segs[|segs| - 1]
  }

  /** The number of rows in all segments but the last. */
  function Earlier(segs: seq<Segment>): nat
    requires segs != []
  {
    |Flatten(segs[..|segs| - 1])|
  }

  /**
   The state of an unbounded segment list: the capacity of the last segment has doubled `b`
   times and the earlier segments hold `a` full ones.  An untyped first segment and the one
   after which the type was widened need not be full.
   */
  predicate Doubling(segs: seq<Segment>, a: nat, b: nat) {
    && segs != [] && a <= b <= a + 1
    && (if Last(segs).dt == Unknown then |segs| == 1 && b == 0
        else
          && |segs| <= b + 2
          && Last(segs).cap >= 100 * Pow2(b)
          && Earlier(segs) >= 100 * (Pow2(a) - 1)
          && (b == a + 1 ==> Last(segs).dt in {Int64, Real}))
  }

  lemma {:induction false} Pow2Monotone(m: nat, n: nat)
    requires m <= n
    ensures Pow2(m) <= Pow2(n)
    decreases n
  {
    if m < n {
      Pow2Monotone(m, n - 1);
    }
  }

  /** What a spill says about the segment that spilled and the one that is listed next. */
  lemma SpillFacts(src: Source, nMax: int, s: Segment, c: Cell)
    requires src.Valid() && !c.Null? && !Fits(src, s, c)
    ensures var h := Holder(src, nMax, s, c);
            && h.dt != Unknown
            && (nMax < 0 ==> h.cap >= (if s.dt == Unknown then 100 else 2 * s.cap))
            && (nMax >= 0 ==> h.cap >= nMax - |s.rows|)
            && (s.dt != Unknown && h.dt == s.dt ==> |s.rows| >= s.cap)
            && (s.dt != Unknown && h.dt != s.dt ==> s.dt == Int && h.dt in {Int64, Real})
  {
    var t := NewSegment(nMax, SpillType(src, s, c), SpillCapacity(nMax, s));
    assert Holder(src, nMax, s, c) == Holder(src, nMax, t, c);
    if !Fits(src, t, c) {
      var u := NewSegment(nMax, SpillType(src, t, c), SpillCapacity(nMax, t));
      assert Holder(src, nMax, t, c) == Holder(src, nMax, u, c) == u.(rows := u.rows + [c]);
    }
  }

  lemma EarlierAfterSpill(segs: seq<Segment>, s: Segment)
    requires segs != []
    ensures Earlier(segs + [s]) == Earlier(segs) + |Last(segs).rows| == |Flatten(segs)|
  {
    assert (segs + [s])[..|segs|] == segs;
    assert segs == segs[..|segs| - 1] + [Last(segs)];
    FlattenSnoc(segs[..|segs| - 1], Last(segs));
  }

  lemma EarlierUnchanged(segs: seq<Segment>, s: Segment)
    requires segs != []
    ensures Earlier(segs[..|segs| - 1] + [s]) == Earlier(segs)
  {
    assert (segs[..|segs| - 1] + [s])[..|segs| - 1] == segs[..|segs| - 1];
  }

  lemma DoublingStep(src: Source, segs: seq<Segment>, nMax: int, a: nat, b: nat, c: Cell) returns (a': nat, b': nat)
    requires src.Valid() && nMax < 0 && Doubling(segs, a, b)
    ensures Doubling(Append(src, nMax, segs, c), a', b')
  {
    hide Fits, Flatten, Earlier;
    a', b' := a, b;
    var last, r := Last(segs), Append(src, nMax, segs, c);
    if Stays(src, last, c) {
      EarlierUnchanged(segs, Last(r));
    } else {
      SpillFacts(src, nMax, last, c);
      EarlierAfterSpill(segs, Last(r));
      if last.dt != Unknown {
        b' := b + 1;
        if Last(r).dt == last.dt {
          a' := a + 1;
          Pow2Monotone(a, b);
        }
      }
    }
  }

  lemma {:induction false} LayoutDoubles(src: Source, nMax: int, t0: DataType, rows: seq<Cell>) returns (a: nat, b: nat)
    requires src.Valid() && nMax < 0
    ensures Doubling(Layout(src, nMax, t0, rows), a, b)
    decreases |rows|
  {
    if rows == [] {
      a, b := 0, 0;
    } else {
      a, b := LayoutDoubles(src, nMax, t0, rows[..|rows| - 1]);
      a, b := DoublingStep(src, Layout(src, nMax, t0, rows[..|rows| - 1]), nMax, a, b, rows[|rows| - 1]);
    }
  }

  /** An unbounded fetch that holds `m` segments has seen at least 100 * (2^(m-3) - 1) rows. */
  lemma GrowthBound(src: Source, nMax: int, t0: DataType, rows: seq<Cell>)
    requires src.Valid() && nMax < 0 && |Layout(src, nMax, t0, rows)| >= 3
    ensures |rows| >= 100 * (Pow2(|Layout(src, nMax, t0, rows)| - 3) - 1)
  {
    var segs := Layout(src, nMax, t0, rows);
    var a, b := LayoutDoubles(src, nMax, t0, rows);
    Pow2Monotone(|segs| - 3, a);
    LayoutIsGood(src, nMax, t0, rows);
    EarlierAfterSpill(segs, Last(segs));
  }

  /** With a row limit every spill makes room for all rows still allowed. */
  predicate Roomy(nMax: int, segs: seq<Segment>) {
    && 1 <= |segs| <= 3
    && (|segs| > 1 ==> Last(segs).dt != Unknown && Last(segs).cap >= nMax - Earlier(segs))
    && (|segs| == 3 ==> Last(segs).dt in {Int64, Real})
  }

  lemma RoomyStep(src: Source, nMax: int, segs: seq<Segment>, c: Cell)
    requires src.Valid() && nMax >= 0 && Roomy(nMax, segs) && |Flatten(segs)| < nMax
    ensures Roomy(nMax, Append(src, nMax, segs, c))
  {
    var last, r := Last(segs), Append(src, nMax, segs, c);
    EarlierAfterSpill(segs, Last(r));
    if Stays(src, last, c) {
      EarlierUnchanged(segs, Last(r));
    } else {
      SpillFacts(src, nMax, last, c);
    }
  }

  /** A fetch of at most `nMax` rows never holds more than three segments. */
  lemma {:induction false} BoundedFetchIsRoomy(src: Source, nMax: int, t0: DataType, rows: seq<Cell>)
    requires src.Valid() && 0 <= |rows| <= nMax
    ensures Roomy(nMax, Layout(src, nMax, t0, rows)) && |Layout(src, nMax, t0, rows)| <= 3
    decreases |rows|
  {
    if rows != [] {
      var before := rows[..|rows| - 1];
      BoundedFetchIsRoomy(src, nMax, t0, before);
      LayoutIsGood(src, nMax, t0, before);
      RoomyStep(src, nMax, Layout(src, nMax, t0, before), rows[|rows| - 1]);
    }
  }
}
