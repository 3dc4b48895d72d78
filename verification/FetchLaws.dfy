/**
 One column over several fetches: which types it is remembered with, and when peeks and the
 division into fetches make no difference to it.
 */
module FetchLaws {
  import opened Values
  import opened ColumnSpec
  import opened ColumnLaws

  // ---------------------------------------------------------------- what decides the type

  /** The type of the first value, or Unknown without one. */
  function FirstValue(src: Source, rows: seq<Cell>): DataType
    requires src.Valid()
  {
    if rows == [] then Unknown
    else
      var before, c := FirstValue(src, rows[..|rows| - 1]), rows[|rows| - 1];
      if before != Unknown || c.Null? then before else ItemType(src, c)
  }

  /** The type of the first value that needs INT64 or REAL, or Unknown without one. */
  function FirstWide(src: Source, rows: seq<Cell>): DataType
    requires src.Valid()
  {
    if rows == [] then Unknown
    else
      var before, c := FirstWide(src, rows[..|rows| - 1]), rows[|rows| - 1];
      if before != Unknown || c.Null? || ItemType(src, c) !in {Int64, Real} then before else ItemType(src, c)
  }

  /** A date or time column by declaration: every value has the declared type. */
  predicate DeclaredDate(src: Source) {
    src.extended && src.decl in {Date, DateTime, Time}
  }

  lemma {:induction false} FirstFacts(src: Source, rows: seq<Cell>)
    requires src.Valid()
    ensures var f, w := FirstValue(src, rows), FirstWide(src, rows);
            && w in {Unknown, Int64, Real} && (f == Unknown ==> w == Unknown) && (f in {Int64, Real} ==> w == f)
            && (if DeclaredDate(src) then f in {Unknown, src.decl} && w == Unknown
                else f in {Unknown, Int, Int64, Real, String, Blob})
    decreases |rows|
  {
    if rows != [] {
      FirstFacts(src, rows[..|rows| - 1]);
    }
  }

  /** A longer list does not change what came first. */
  lemma {:induction false} FirstStays(src: Source, rows: seq<Cell>, k: nat)
    requires src.Valid() && k <= |rows|
    ensures FirstValue(src, rows[..k]) in {Unknown, FirstValue(src, rows)}
    ensures FirstWide(src, rows[..k]) in {Unknown, FirstWide(src, rows)}
    decreases |rows| - k
  {
    if k == |rows| {
      assert rows[..k] == rows;
    } else {
      assert rows[..k + 1][..k] == rows[..k];
      FirstStays(src, rows, k + 1);
    }
  }

  function Settled(start: DataType, first: DataType, wide: DataType): DataType {
    var t := if start == Unknown then first else start;
    if t == Int && wide != Unknown then wide else t
  }

  /** The column type is decided by the initial type, the first value and the first wide value. */
  lemma {:induction false} TypeIsSettled(src: Source, t: DataType, rows: seq<Cell>)
    requires src.Valid()
    ensures TypeAfter(src, t, rows) == Settled(Initial(t), FirstValue(src, rows), FirstWide(src, rows))
    decreases |rows|
  {
    if rows != [] {
      FirstFacts(src, rows[..|rows| - 1]);
      TypeIsSettled(src, t, rows[..|rows| - 1]);
    }
  }

  /** An integer that R can hold in 32 bits, or NULL. */
  predicate Small(c: Cell) {
    c.Null? || (c.Integer? && -2147483648 <= c.v <= 2147483647)
  }

  predicate FirstLarge(rows: seq<Cell>, k: nat) {
    k < |rows| && !Small(rows[k]) && forall j :: 0 <= j < k ==> Small(rows[j])
  }

  /**
   The type that a column of numbers comes to: INT for 32-bit integers only, and otherwise
   INT64 or REAL after the first number that is none.
   */
  lemma {:induction false} TypeOfNumbers(src: Source, t: DataType, rows: seq<Cell>)
    requires src.Valid() && !DeclaredDate(src) && Initial(t) == Unknown
    requires forall k :: 0 <= k < |rows| ==> rows[k].Null? || IsNumber(rows[k])
    ensures var to := TypeAfter(src, t, rows);
            && (to == Unknown <==> forall k :: 0 <= k < |rows| ==> rows[k].Null?)
            && (to == Int <==>
                (exists k :: 0 <= k < |rows| && !rows[k].Null?) && forall k :: 0 <= k < |rows| ==> Small(rows[k]))
            && (to == Int64 <==> exists k: nat :: FirstLarge(rows, k) && rows[k].Integer?)
            && (to == Real <==> exists k: nat :: FirstLarge(rows, k) && rows[k].Float?)
    decreases |rows|
  {
    if rows != [] {
      var n := |rows| - 1;
      var before := rows[..n];
      TypeOfNumbers(src, t, before);
      ItemTypeMeans(src, rows[n]);
      forall k: nat ensures FirstLarge(rows, k) <==> FirstLarge(before, k) || (k == n && FirstLarge(rows, n)) {
        LargeBefore(rows, k);
      }
      assert FirstLarge(rows, n) <==> !Small(rows[n]) && forall k :: 0 <= k < n ==> Small(before[k]);
    }
  }

  lemma {:induction false} LargeBefore(rows: seq<Cell>, k: nat)
    requires rows != []
    ensures FirstLarge(rows, k) <==>
            FirstLarge(rows[..|rows| - 1], k) || (k == |rows| - 1 && FirstLarge(rows, |rows| - 1))
  {}

  // ---------------------------------------------------------------- the remembered type

  /** The column type remembered after a look at these rows (one row at most, for a peek). */
  function Remembered(src: Source, t: DataType, rows: seq<Cell>): (r: DataType)
    requires src.Valid()
    ensures r != Unknown
  {
    Resolve(src, TypeAfter(src, t, rows))
  }

  /** What a call looks at in one column, and whether it hands these rows out. */
  datatype Look = Look(cells: seq<Cell>, kept: bool)

  /** The types before the first look and after each of them. */
  function TypesOver(src: Source, t: DataType, looks: seq<Look>): (ts: seq<DataType>)
    requires src.Valid()
    ensures |ts| == |looks| + 1 && ts[0] == t
    decreases |looks|
  {
    if looks == [] then [t] else [t] + TypesOver(src, Remembered(src, t, looks[0].cells), looks[1..])
  }

  lemma RememberedEvolves(src: Source, t: DataType, rows: seq<Cell>)
    requires src.Valid() && t !in {Unknown, Bool}
    ensures var u := Remembered(src, t, rows); u == t || (t == Int && u in {Int64, Real})
  {
    TypesEvolve(src, t, rows, 0);
    assert rows[..0] == [];
  }

  lemma {:induction false} TypesFrom(src: Source, t: DataType, looks: seq<Look>, j: nat)
    requires src.Valid() && t !in {Unknown, Bool} && j <= |looks|
    ensures var u := TypesOver(src, t, looks)[j]; u == t || (t == Int && u in {Int64, Real})
    ensures j < |looks| && TypesOver(src, t, looks)[j] != t ==>
              TypesOver(src, t, looks)[j + 1] == TypesOver(src, t, looks)[j]
    decreases |looks|
  {
    if looks != [] {
      var u := Remembered(src, t, looks[0].cells);
      RememberedEvolves(src, t, looks[0].cells);
      var rest := TypesOver(src, u, looks[1..]);
      if j > 0 {
        TypesFrom(src, u, looks[1..], j - 1);
        if u != t && j < |looks| {
          TypesFrom(src, u, looks[1..], j);
        }
      }
    }
  }

  /** Once known, a column type changes at most once over all looks, and only from INT. */
  lemma {:induction false} TypeChangesOnce(src: Source, t: DataType, looks: seq<Look>, i: nat, j: nat, l: nat)
    requires src.Valid() && i <= j <= l <= |looks| && TypesOver(src, t, looks)[i] !in {Unknown, Bool}
    ensures var ts := TypesOver(src, t, looks);
            && (ts[j] == ts[i] || ts[j] == ts[l])
            && (ts[j] != ts[i] ==> ts[i] == Int && ts[j] in {Int64, Real})
    decreases |looks|
  {
    if i > 0 {
      TypeChangesOnce(src, Remembered(src, t, looks[0].cells), looks[1..], i - 1, j - 1, l - 1);
    } else {
      TypesFrom(src, t, looks, j);
      if TypesOver(src, t, looks)[j] != t {
        TypesSettled(src, t, looks, j, l);
      }
    }
  }

  lemma {:induction false} TypesSettled(src: Source, t: DataType, looks: seq<Look>, j: nat, l: nat)
    requires src.Valid() && t !in {Unknown, Bool} && j <= l <= |looks| && TypesOver(src, t, looks)[j] != t
    ensures TypesOver(src, t, looks)[l] == TypesOver(src, t, looks)[j]
    decreases l - j
  {
    if j < l {
      TypesFrom(src, t, looks, j);
      TypesSettled(src, t, looks, j + 1, l);
    }
  }

  // ---------------------------------------------------------------- equal columns

  /** Types that vectors of R tell apart by their slots. */
  predicate Plain(dt: DataType) {
    dt in {Unknown, Bool, Int, Int64, Real, String, Blob}
  }

  /** A column whose remembered type no value can change. */
  predicate Fixed(src: Source, t: DataType) {
    DeclaredDate(src) || Initial(t) in {Date, DateTime, DateTimeTz, Time}
  }

  lemma {:induction false} FixedOrPlain(src: Source, t: DataType, rows: seq<Cell>)
    requires src.Valid()
    ensures if Fixed(src, t) then Remembered(src, t, rows) == Resolve(src, Initial(t))
            else Plain(Remembered(src, t, rows))
  {
    FirstFacts(src, rows);
    TypeIsSettled(src, t, rows);
  }

  /** The final type `to` is one that a column remembered as `t` may also come to. */
  predicate Comparable(src: Source, t: DataType, to: DataType)
    requires src.Valid()
  {
    if Fixed(src, t) then to == Resolve(src, Initial(t)) else Plain(to)
  }

  lemma {:induction false} ComparableStays(src: Source, t: DataType, rows: seq<Cell>, to: DataType)
    requires src.Valid() && Comparable(src, t, to)
    ensures Comparable(src, Remembered(src, t, rows), to)
    ensures Comparable(src, TypeAfter(src, t, rows), to)
    ensures Comparable(src, t, Remembered(src, t, rows))
  {
    FixedOrPlain(src, t, rows);
    FirstFacts(src, rows);
    TypeIsSettled(src, t, rows);
  }

  /** A value reads the same as a widened 32-bit integer and directly under the wider type. */
  predicate WidensExactly(src: Source, to: DataType, c: Cell)
    requires to in {Int64, Real}
  {
    if c.Integer? then c.v != -2147483648
    else
      FetchHasType(src.co, Int, c);
      Widen(Fetch(src.co, Int, c), to) == Fetch(src.co, to, c)
  }

  /** The slots of one value that was stored under two types. */
  lemma {:induction false} StoredTwice(src: Source, x: DataType, y: DataType, to: DataType, c: Cell)
    requires src.Valid() && !c.Null? && to != Unknown && x != Unknown && y != Unknown
    requires Evolves(x, to) && Evolves(y, to)
    requires x != y ==> !c.Float? && (c.Integer? ==> !Needs64Bit(c.v))
    ensures Converted(src, x, to, c) == Converted(src, y, to, c) <==>
            x == y || (to in {Int64, Real} && WidensExactly(src, to, c))
  {
    if x != y {
      FetchHasType(src.co, Int, c);
      FetchHasType(src.co, to, c);
      if c.Integer? {
        Low32Identity(c.v);
        var v: int32 := c.v;
        assert src.co.round(v) == v as real;
      }
    }
  }

  /** Every value is stored under the same type in both columns, or widens exactly. */
  predicate Exact(src: Source, p: DataType, s: DataType, rows: seq<Cell>, to: DataType)
    requires src.Valid()
  {
    forall k :: 0 <= k < |rows| && !rows[k].Null? &&
                TypeAfter(src, p, rows[..k + 1]) != TypeAfter(src, s, rows[..k + 1]) ==>
                  to in {Int64, Real} && WidensExactly(src, to, rows[k])
  }

  /** A value stored as INT in a column that ends wider is a 32-bit integer or coerced to one. */
  lemma {:induction false} StoredNarrow(src: Source, s: DataType, rows: seq<Cell>, k: nat, to: DataType)
    requires src.Valid() && k < |rows| && !rows[k].Null? && Comparable(src, s, to)
    requires TypeAfter(src, s, rows[..k + 1]) == Int && to in {Int64, Real}
    ensures !rows[k].Float? && (rows[k].Integer? ==> !Needs64Bit(rows[k].v))
  {
    FixedOrPlain(src, s, rows[..k + 1]);
    assert rows[..k + 1][..k] == rows[..k];
  }

  lemma {:induction false} StoredKnown(src: Source, s: DataType, rows: seq<Cell>, to: DataType, k: nat)
    requires src.Valid() && k < |rows| && !rows[k].Null? && Evolves(TypeAfter(src, s, rows), to)
    ensures TypeAfter(src, s, rows[..k + 1]) != Unknown && Evolves(TypeAfter(src, s, rows[..k + 1]), to)
  {
    TypeKnown(src, s, rows, k);
  }

  lemma {:induction false} OneIsNarrow(src: Source, p: DataType, s: DataType, rows: seq<Cell>, to: DataType, k: nat)
    requires src.Valid() && k < |rows| && !rows[k].Null? && Comparable(src, p, to) && Comparable(src, s, to)
    requires Evolves(TypeAfter(src, p, rows), to) && Evolves(TypeAfter(src, s, rows), to)
    requires TypeAfter(src, p, rows[..k + 1]) != TypeAfter(src, s, rows[..k + 1])
    ensures !rows[k].Float? && (rows[k].Integer? ==> !Needs64Bit(rows[k].v))
  {
    hide TypeAfter, ItemType, Comparable;
    StoredKnown(src, p, rows, to, k);
    StoredKnown(src, s, rows, to, k);
    if TypeAfter(src, p, rows[..k + 1]) == Int {
      StoredNarrow(src, p, rows, k, to);
    } else {
      StoredNarrow(src, s, rows, k, to);
    }
  }

  lemma {:induction false} ValueSlot(src: Source, s: DataType, rows: seq<Cell>, to: DataType, k: nat)
    requires src.Valid() && k < |rows| && to != Unknown && Evolves(TypeAfter(src, s, rows), to)
    ensures rows[k].Null? ==> ColumnSlot(src, s, rows, to, k) == NA(to)
    ensures !rows[k].Null? ==>
              && TypeAfter(src, s, rows[..k + 1]) != Unknown && Evolves(TypeAfter(src, s, rows[..k + 1]), to)
              && ColumnSlot(src, s, rows, to, k) == Converted(src, TypeAfter(src, s, rows[..k + 1]), to, rows[k])
  {
    hide TypeAfter, Converted, Evolves;
    if !rows[k].Null? {
      StoredKnown(src, s, rows, to, k);
    }
  }

  /** The same rows, begun with type `p` and ending in `to`, or begun with type `s`. */
  lemma {:induction false} SlotsAgree(src: Source, p: DataType, s: DataType, rows: seq<Cell>, to: DataType, k: nat)
    requires src.Valid() && k < |rows| && to != Unknown && Comparable(src, p, to) && Comparable(src, s, to)
    requires Evolves(TypeAfter(src, p, rows), to) && Evolves(TypeAfter(src, s, rows), to)
    ensures ColumnSlot(src, p, rows, to, k) == ColumnSlot(src, s, rows, to, k) <==>
            rows[k].Null? || TypeAfter(src, p, rows[..k + 1]) == TypeAfter(src, s, rows[..k + 1])
            || (to in {Int64, Real} && WidensExactly(src, to, rows[k]))
  {
    hide ColumnSlot, TypeAfter, ItemType, Comparable, Converted, WidensExactly, Evolves;
    ValueSlot(src, p, rows, to, k);
    ValueSlot(src, s, rows, to, k);
    if !rows[k].Null? {
      var x, y := TypeAfter(src, p, rows[..k + 1]), TypeAfter(src, s, rows[..k + 1]);
      if x != y {
        OneIsNarrow(src, p, s, rows, to, k);
      }
      StoredTwice(src, x, y, to, rows[k]);
    }
  }

  lemma {:induction false} SameSlots(src: Source, p: DataType, s: DataType, rows: seq<Cell>, to: DataType)
    requires src.Valid() && to != Unknown && Comparable(src, p, to) && Comparable(src, s, to)
    requires Evolves(TypeAfter(src, p, rows), to) && Evolves(TypeAfter(src, s, rows), to)
    ensures ColumnTo(src, p, rows, to) == ColumnTo(src, s, rows, to) <==> Exact(src, p, s, rows, to)
  {
    hide TypeAfter, Comparable, ColumnSlot, Evolves;
    var a, b := ColumnTo(src, p, rows, to), ColumnTo(src, s, rows, to);
    forall k | 0 <= k < |rows|
      ensures a[k] == b[k] <==>
              rows[k].Null? || TypeAfter(src, p, rows[..k + 1]) == TypeAfter(src, s, rows[..k + 1])
              || (to in {Int64, Real} && WidensExactly(src, to, rows[k]))
    {
      SlotsAgree(src, p, s, rows, to, k);
    }
  }

  /** Vectors of different remembered types differ in every slot. */
  lemma {:induction false} OtherType(src: Source, p: DataType, s: DataType, rows: seq<Cell>, to: DataType)
    requires src.Valid() && to != Unknown && Comparable(src, p, to) && rows != []
    requires Evolves(TypeAfter(src, s, rows), to) && Remembered(src, p, rows) != to
    ensures Column(src, p, rows)[0] != ColumnTo(src, s, rows, to)[0]
  {
    ColumnHasType(src, p, rows, 0);
    FixedOrPlain(src, p, rows);
    SlotHasType(src, s, rows, to, 0);
  }

  lemma {:induction false} SlotHasType(src: Source, s: DataType, rows: seq<Cell>, to: DataType, k: nat)
    requires src.Valid() && to != Unknown && Evolves(TypeAfter(src, s, rows), to) && k < |rows|
    ensures HasType(ColumnTo(src, s, rows, to)[k], to)
  {
    FetchHasType(src.co, to, rows[k]);
    if !rows[k].Null? {
      TypeKnown(src, s, rows, k);
    }
  }

  /** When a column remembered as `p` comes out as rows that were begun with `s` and end in `to`. */
  lemma {:induction false} SameColumn(src: Source, p: DataType, s: DataType, rows: seq<Cell>, to: DataType)
    requires src.Valid() && to != Unknown && Comparable(src, p, to) && Comparable(src, s, to)
    requires Evolves(TypeAfter(src, s, rows), to)
    ensures Column(src, p, rows) == ColumnTo(src, s, rows, to) <==>
            rows == [] || (Remembered(src, p, rows) == to && Exact(src, p, s, rows, to))
  {
    hide TypeAfter, Comparable, ColumnSlot, Exact;
    if rows != [] {
      if Remembered(src, p, rows) == to {
        SameSlots(src, p, s, rows, to);
      } else {
        OtherType(src, p, s, rows, to);
      }
    }
  }

  // ---------------------------------------------------------------- a peek before the fetch

  /** A NULL looked at fixes the declared type; whether that is the type the rows come to anyway. */
  predicate PinKeepsType(src: Source, t: DataType, rows: seq<Cell>)
    requires src.Valid()
  {
    var first, wide := FirstValue(src, rows), FirstWide(src, rows);
    || Initial(t) != Unknown || src.decl == Bool || first == Unknown || first == src.decl
    || (src.decl == Int && first in {Int64, Real})
    || (src.decl == Real && first == Int && wide == Real)
  }

  /** The declared type REAL replaces INT, to which the first values would have come. */
  predicate PinWidens(src: Source, t: DataType, rows: seq<Cell>)
    requires src.Valid()
  {
    Initial(t) == Unknown && src.decl == Real && FirstValue(src, rows) == Int
  }

  /** In that case the values before the first REAL must widen exactly. */
  predicate PinKeepsValues(src: Source, t: DataType, rows: seq<Cell>)
    requires src.Valid()
  {
    PinWidens(src, t, rows) ==>
      forall k :: 0 <= k < |rows| && !rows[k].Null? && FirstWide(src, rows[..k + 1]) == Unknown ==>
                    WidensExactly(src, Real, rows[k])
  }

  lemma {:induction false} PinnedType(src: Source, t: DataType, rows: seq<Cell>)
    requires src.Valid()
    ensures Remembered(src, Resolve(src, Initial(t)), rows) == Remembered(src, t, rows) <==> PinKeepsType(src, t, rows)
  {
    FirstFacts(src, rows);
    TypeIsSettled(src, t, rows);
    TypeIsSettled(src, Resolve(src, Initial(t)), rows);
  }

  lemma {:induction false} PinnedValues(src: Source, t: DataType, rows: seq<Cell>)
    requires src.Valid() && PinKeepsType(src, t, rows)
    ensures Exact(src, Resolve(src, Initial(t)), t, rows, Remembered(src, t, rows)) <==> PinKeepsValues(src, t, rows)
  {
    var p, to := Resolve(src, Initial(t)), Remembered(src, t, rows);
    FirstFacts(src, rows);
    TypeIsSettled(src, t, rows);
    forall k | 0 <= k < |rows| && !rows[k].Null?
      ensures TypeAfter(src, p, rows[..k + 1]) != TypeAfter(src, t, rows[..k + 1]) <==>
              PinWidens(src, t, rows) && FirstWide(src, rows[..k + 1]) == Unknown
    {
      PinnedAt(src, t, rows, k);
    }
  }

  lemma {:induction false} PinnedAt(src: Source, t: DataType, rows: seq<Cell>, k: nat)
    requires src.Valid() && PinKeepsType(src, t, rows) && k < |rows| && !rows[k].Null?
    ensures TypeAfter(src, Resolve(src, Initial(t)), rows[..k + 1]) != TypeAfter(src, t, rows[..k + 1]) <==>
            PinWidens(src, t, rows) && FirstWide(src, rows[..k + 1]) == Unknown
  {
    var upto := rows[..k + 1];
    assert upto[..k] == rows[..k] && FirstValue(src, upto) != Unknown;
    FirstStays(src, rows, k + 1);
    FirstFacts(src, upto);
    FirstFacts(src, rows);
    TypeIsSettled(src, t, upto);
    TypeIsSettled(src, Resolve(src, Initial(t)), upto);
  }

  lemma RememberedFromOne(src: Source, t: DataType, c: Cell)
    requires src.Valid()
    ensures Remembered(src, t, [c]) == Resolve(src, TypeAfterCell(src, Initial(t), c))
  {
    assert [] + [c] == [c];
    TypeAfterSnoc(src, t, [], c);
  }

  lemma NothingLearnt(src: Source, t: DataType, next: seq<Cell>)
    requires src.Valid() && |next| <= 1 && (next != [] ==> next[0].Null?)
    ensures Remembered(src, t, next) == Resolve(src, Initial(t))
  {
    if next != [] {
      RememberedFromOne(src, t, next[0]);
      assert next == [next[0]];
    }
  }

  /**
   A look that meets no value (a peek at NULL, at an unbound or at a complete result) before a
   fetch of any rows: exactly when the fetch remembers the same type and returns the same column.
   */
  lemma {:induction false} PeekAtNull(src: Source, t: DataType, next: seq<Cell>, rows: seq<Cell>)
    requires src.Valid() && |next| <= 1 && (next != [] ==> next[0].Null?)
    ensures var p := Remembered(src, t, next);
            && (Remembered(src, p, rows) == Remembered(src, t, rows) <==> PinKeepsType(src, t, rows))
            && (Column(src, p, rows) == Column(src, t, rows) <==>
                rows == [] || (PinKeepsType(src, t, rows) && PinKeepsValues(src, t, rows)))
  {
    var p, to := Resolve(src, Initial(t)), Remembered(src, t, rows);
    hide TypeAfter, Column;
    NothingLearnt(src, t, next);
    PinnedType(src, t, rows);
    FixedOrPlain(src, t, rows);
    ComparableStays(src, t, next, to);
    SameColumn(src, p, t, rows, to);
    if PinKeepsType(src, t, rows) {
      PinnedValues(src, t, rows);
    }
  }

  /** Looking at the next row, if there is one, twice remembers the same type as looking once. */
  lemma PeekTwice(src: Source, t: DataType, next: seq<Cell>)
    requires src.Valid() && |next| <= 1
    ensures Remembered(src, Remembered(src, t, next), next) == Remembered(src, t, next)
  {
    if next != [] {
      hide Remembered, TypeAfter;
      assert next == [next[0]];
      RememberedFromOne(src, t, next[0]);
      RememberedFromOne(src, Remembered(src, t, next), next[0]);
    }
  }

  /** After a peek at a value the next fetch returns the same column as without the peek. */
  lemma PeekAtValue(src: Source, t: DataType, rows: seq<Cell>)
    requires src.Valid() && rows != [] && !rows[0].Null?
    ensures Column(src, Remembered(src, t, [rows[0]]), rows) == Column(src, t, rows)
    ensures Remembered(src, Remembered(src, t, [rows[0]]), rows) == Remembered(src, t, rows)
  {
    var p := Remembered(src, t, [rows[0]]);
    forall k | 1 <= k <= |rows| ensures TypeAfter(src, p, rows[..k]) == TypeAfter(src, t, rows[..k]) {
      SameTypesAfterPeek(src, t, rows, k);
    }
    assert rows[..|rows|] == rows;
    var a, b := Column(src, p, rows), Column(src, t, rows);
    forall k | 0 <= k < |rows| ensures a[k] == b[k] {
      assert TypeAfter(src, p, rows[..k + 1]) == TypeAfter(src, t, rows[..k + 1]);
    }
  }

  lemma {:induction false} SameTypesAfterPeek(src: Source, t: DataType, rows: seq<Cell>, k: nat)
    requires src.Valid() && 1 <= k <= |rows| && !rows[0].Null?
    ensures TypeAfter(src, Remembered(src, t, [rows[0]]), rows[..k]) == TypeAfter(src, t, rows[..k])
  {
    assert rows[..k][..k - 1] == rows[..k - 1];
    if k == 1 {
      assert rows[..1] == [rows[0]] && [rows[0]][..0] == [] && rows[..0] == [];
    } else {
      SameTypesAfterPeek(src, t, rows, k - 1);
    }
  }

  /**
   A peek, and then a fetch that begins with the row looked at, if a value was met: exactly
   when the fetch returns the column that it returns without the peek.
   */
  lemma PeekThenFetch(src: Source, t: DataType, next: seq<Cell>, rows: seq<Cell>)
    requires src.Valid() && |next| <= 1
    requires next != [] && !next[0].Null? ==> rows != [] && rows[0] == next[0]
    ensures Column(src, Remembered(src, t, next), rows) == Column(src, t, rows) <==>
            || (next != [] && !next[0].Null?) || rows == []
            || (PinKeepsType(src, t, rows) && PinKeepsValues(src, t, rows))
  {
    if next != [] && !next[0].Null? {
      assert next == [rows[0]];
      PeekAtValue(src, t, rows);
    } else {
      PeekAtNull(src, t, next, rows);
    }
  }

  /** It can make a difference: a NULL before a text in a column declared REAL. */
  lemma {:induction false} PeekAtNullMatters(src: Source)
    requires src.Valid() && !src.extended && src.decl == Real
    ensures var rows := [Null, Text([])];
            && Remembered(src, Remembered(src, Unknown, [Null]), rows) != Remembered(src, Unknown, rows)
            && Column(src, Remembered(src, Unknown, [Null]), rows) != Column(src, Unknown, rows)
  {
    var rows := [Null, Text([])];
    assert rows[..1] == [Null] && [Null][..0] == [];
    assert FirstValue(src, [Null]) == Unknown;
    assert FirstValue(src, rows) == String;
    PeekAtNull(src, Unknown, [Null], rows);
  }

  // ---------------------------------------------------------------- fetching in parts

  lemma {:induction false} TypeAfterConcat(src: Source, t: DataType, a: seq<Cell>, b: seq<Cell>)
    requires src.Valid()
    ensures TypeAfter(src, t, a + b) == TypeAfter(src, TypeAfter(src, t, a), b)
    decreases |b|
  {
    if b == [] {
      assert a + b == a;
      FirstFacts(src, a);
      TypeIsSettled(src, t, a);
    } else {
      assert (a + b)[..|a + b| - 1] == a + b[..|b| - 1];
      TypeAfterConcat(src, t, a, b[..|b| - 1]);
    }
  }

  lemma {:induction false} SplitTypes(src: Source, s: DataType, a: seq<Cell>, b: seq<Cell>, to: DataType)
    requires src.Valid() && Evolves(TypeAfter(src, s, a + b), to)
    ensures Evolves(TypeAfter(src, s, a), to) && Evolves(TypeAfter(src, TypeAfter(src, s, a), b), to)
  {
    assert (a + b)[..|a|] == a;
    TypesEvolve(src, s, a + b, |a|);
    TypeAfterConcat(src, s, a, b);
  }

  /** A column in two parts: the second goes on with the type that the first came to. */
  lemma {:induction false} SplitColumn(src: Source, s: DataType, a: seq<Cell>, b: seq<Cell>, to: DataType)
    requires src.Valid() && to != Unknown && Evolves(TypeAfter(src, s, a + b), to)
    ensures Evolves(TypeAfter(src, s, a), to) && Evolves(TypeAfter(src, TypeAfter(src, s, a), b), to)
    ensures ColumnTo(src, s, a + b, to) == ColumnTo(src, s, a, to) + ColumnTo(src, TypeAfter(src, s, a), b, to)
  {
    hide TypeAfter, Evolves, ColumnSlot, ColumnTo;
    SplitTypes(src, s, a, b, to);
    var whole, first := ColumnTo(src, s, a + b, to), ColumnTo(src, s, a, to);
    var second := ColumnTo(src, TypeAfter(src, s, a), b, to);
    forall k | 0 <= k < |whole| ensures whole[k] == (first + second)[k] {
      if k < |a| {
        SplitFirst(src, s, a, b, to, k);
      } else {
        SplitSecond(src, s, a, b, to, k - |a|);
      }
    }
  }

  lemma {:induction false} SplitFirst(src: Source, s: DataType, a: seq<Cell>, b: seq<Cell>, to: DataType, k: nat)
    requires src.Valid() && to != Unknown && Evolves(TypeAfter(src, s, a + b), to) && k < |a|
    requires Evolves(TypeAfter(src, s, a), to)
    ensures ColumnSlot(src, s, a + b, to, k) == ColumnSlot(src, s, a, to, k)
  {
    hide TypeAfter, Evolves, Converted;
    assert (a + b)[..k + 1] == a[..k + 1];
  }

  lemma {:induction false} SplitSecond(src: Source, s: DataType, a: seq<Cell>, b: seq<Cell>, to: DataType, k: nat)
    requires src.Valid() && to != Unknown && Evolves(TypeAfter(src, s, a + b), to) && k < |b|
    requires Evolves(TypeAfter(src, TypeAfter(src, s, a), b), to)
    ensures ColumnSlot(src, s, a + b, to, |a| + k) == ColumnSlot(src, TypeAfter(src, s, a), b, to, k)
  {
    hide TypeAfter, Evolves, Converted;
    assert (a + b)[..|a| + k + 1] == a + b[..k + 1] && (a + b)[|a| + k] == b[k];
    TypeAfterConcat(src, s, a, b[..k + 1]);
  }

  lemma {:induction false} Cancel<T>(a: seq<T>, a': seq<T>, b: seq<T>, b': seq<T>)
    requires |a| == |a'|
    ensures a + b == a' + b' <==> a == a' && b == b'
  {
    assert (a + b)[..|a|] == a && (a' + b')[..|a|] == a' && (a + b)[|a|..] == b && (a' + b')[|a|..] == b';
  }

  /** The rows `b` leave a column alone that has come to type `s`. */
  predicate TypeLasts(src: Source, s: DataType, b: seq<Cell>)
    requires src.Valid()
  {
    var first, wide := FirstValue(src, b), FirstWide(src, b);
    if s == Unknown then first == Unknown || src.decl == (if first == Int && wide != Unknown then wide else first)
    else s == Int ==> wide == Unknown
  }

  lemma {:induction false} TypeLastsMeans(src: Source, s: DataType, b: seq<Cell>)
    requires src.Valid() && s != Bool
    ensures TypeLasts(src, s, b) <==> Remembered(src, s, b) == Resolve(src, s)
  {
    FirstFacts(src, b);
    TypeIsSettled(src, s, b);
  }

  /**
   Two fetches return the column of one fetch exactly if the first part is empty or its type
   lasts, and the second part is not changed by a declared type that the first one fixed.
   */
  lemma {:induction false} ChunksConcatenate(src: Source, t: DataType, a: seq<Cell>, b: seq<Cell>)
    requires src.Valid()
    ensures var s := TypeAfter(src, t, a);
            Column(src, t, a + b) == Column(src, t, a) + Column(src, Remembered(src, t, a), b) <==>
            && (a == [] || TypeLasts(src, s, b))
            && (b == [] || (PinKeepsType(src, s, b) && PinKeepsValues(src, s, b)))
  {
    var s, to := TypeAfter(src, t, a), Remembered(src, t, a + b);
    FirstFacts(src, a);
    TypeIsSettled(src, t, a);
    SplitColumn(src, t, a, b, to);
    TypeAfterConcat(src, t, a, b);
    FixedOrPlain(src, t, a + b);
    SameColumn(src, t, t, a, to);
    TypeLastsMeans(src, s, b);
    PeekAtNull(src, s, [], b);
    Cancel(Column(src, t, a), ColumnTo(src, t, a, to), Column(src, Remembered(src, t, a), b), Column(src, s, b));
  }

  // ---------------------------------------------------------------- any number of looks

  /** The rows that are handed out, in order. */
  function Kept(looks: seq<Look>): seq<Cell> {
    if looks == [] then []
    else (if looks[0].kept then looks[0].cells else []) + Kept(looks[1..])
  }

  /** The columns handed out by several looks, one after the other. */
  function Parts(src: Source, t: DataType, looks: seq<Look>): seq<Slot>
    requires src.Valid()
    decreases |looks|
  {
    if looks == [] then []
    else
      (if looks[0].kept then Column(src, t, looks[0].cells) else [])
      + Parts(src, Remembered(src, t, looks[0].cells), looks[1..])
  }

  /**
   Every look that hands out rows remembers the type `to`, and each of its values widens
   exactly unless it is stored under the type it would have in a single fetch.  The column is
   remembered as `p`, while a single fetch of the rows so far would have come to `s`.
   */
  predicate AllAgree(src: Source, p: DataType, s: DataType, looks: seq<Look>, to: DataType)
    requires src.Valid()
    decreases |looks|
  {
    looks == [] || (
      var cells, rest, p' := looks[0].cells, looks[1..], Remembered(src, p, looks[0].cells);
      if !looks[0].kept then AllAgree(src, p', s, rest, to)
      else
        && (cells == [] || (p' == to && Exact(src, p, s, cells, to)))
        && AllAgree(src, p', TypeAfter(src, s, cells), rest, to))
  }

  /** One more column handed out before a list of slots. */
  lemma {:induction false} KeptLook(src: Source, p: DataType, s: DataType, cells: seq<Cell>, more: seq<Cell>,
                                    tail: seq<Slot>, to: DataType)
    requires src.Valid() && to != Unknown && Comparable(src, p, to) && Comparable(src, s, to)
    requires Evolves(TypeAfter(src, s, cells + more), to)
    ensures Evolves(TypeAfter(src, TypeAfter(src, s, cells), more), to)
    ensures Column(src, p, cells) + tail == ColumnTo(src, s, cells + more, to) <==>
            && (cells == [] || (Remembered(src, p, cells) == to && Exact(src, p, s, cells, to)))
            && tail == ColumnTo(src, TypeAfter(src, s, cells), more, to)
  {
    hide TypeAfter, Comparable, Column, ColumnTo, Evolves, Exact, Remembered;
    SplitColumn(src, s, cells, more, to);
    SameColumn(src, p, s, cells, to);
    Cancel(Column(src, p, cells), ColumnTo(src, s, cells, to), tail, ColumnTo(src, TypeAfter(src, s, cells), more, to));
  }

  lemma {:induction false} KeptFirst(src: Source, p: DataType, looks: seq<Look>)
    requires src.Valid() && looks != [] && looks[0].kept
    ensures var cells, rest, p' := looks[0].cells, looks[1..], Remembered(src, p, looks[0].cells);
            && Kept(looks) == cells + Kept(rest)
            && Parts(src, p, looks) == Column(src, p, cells) + Parts(src, p', rest)
  {
    hide TypeAfter, Column, Remembered;
  }

  lemma {:induction false} AgreeFirst(src: Source, p: DataType, s: DataType, looks: seq<Look>, to: DataType)
    requires src.Valid() && looks != [] && looks[0].kept
    ensures var cells, rest, p' := looks[0].cells, looks[1..], Remembered(src, p, looks[0].cells);
            AllAgree(src, p, s, looks, to) <==>
            && (cells == [] || (p' == to && Exact(src, p, s, cells, to)))
            && AllAgree(src, p', TypeAfter(src, s, cells), rest, to)
  {
    hide TypeAfter, Exact, Remembered;
  }

  lemma {:induction false} PeekFirst(src: Source, p: DataType, s: DataType, looks: seq<Look>, to: DataType)
    requires src.Valid() && looks != [] && !looks[0].kept
    ensures var rest, p' := looks[1..], Remembered(src, p, looks[0].cells);
            && Kept(looks) == Kept(rest)
            && Parts(src, p, looks) == Parts(src, p', rest)
            && (AllAgree(src, p, s, looks, to) <==> AllAgree(src, p', s, rest, to))
  {
    hide TypeAfter, Column, Exact, Remembered;
    assert [] + Kept(looks[1..]) == Kept(looks[1..]);
    var slots := Parts(src, Remembered(src, p, looks[0].cells), looks[1..]);
    assert [] + slots == slots;
  }

  lemma {:induction false} PartsAt(src: Source, p: DataType, s: DataType, looks: seq<Look>, to: DataType)
    requires src.Valid() && to != Unknown && Comparable(src, p, to) && Comparable(src, s, to)
    requires Evolves(TypeAfter(src, s, Kept(looks)), to)
    ensures Parts(src, p, looks) == ColumnTo(src, s, Kept(looks), to) <==> AllAgree(src, p, s, looks, to)
    decreases |looks|
  {
    if looks == [] {
      assert Kept(looks) == [];
    } else {
      hide TypeAfter, Comparable, Column, ColumnTo, Evolves, Exact, Remembered, Parts, AllAgree, Kept;
      var cells, rest := looks[0].cells, looks[1..];
      ComparableStays(src, p, cells, to);
      if !looks[0].kept {
        PeekFirst(src, p, s, looks, to);
        PartsAt(src, Remembered(src, p, cells), s, rest, to);
      } else {
        KeptFirst(src, p, looks);
        AgreeFirst(src, p, s, looks, to);
        ComparableStays(src, s, cells, to);
        KeptLook(src, p, s, cells, Kept(rest), Parts(src, Remembered(src, p, cells), rest), to);
        PartsAt(src, Remembered(src, p, cells), TypeAfter(src, s, cells), rest, to);
      }
    }
  }

  /** However rows are divided over fetches, with peeks in between: exactly when the column is that of one fetch. */
  lemma {:induction false} PartsAgree(src: Source, t: DataType, looks: seq<Look>)
    requires src.Valid()
    ensures Parts(src, t, looks) == Column(src, t, Kept(looks)) <==>
            AllAgree(src, t, t, looks, Remembered(src, t, Kept(looks)))
  {
    var to := Remembered(src, t, Kept(looks));
    FixedOrPlain(src, t, Kept(looks));
    PartsAt(src, t, t, looks, to);
  }
}
