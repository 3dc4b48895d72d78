/**
 What a result column must look like: the types it passes through, the plain list of
 converted rows, and the segments of fixed capacity that the code keeps instead.
 (src/DbColumnStorage.cpp, src/DbColumn.cpp)
 */
module ColumnSpec {
  import opened Values

  // ---------------------------------------------------------------- types

  /** The type a column starts with in a fetch; a column never stays logical by itself. */
  function Initial(t: DataType): DataType {
    if t == Bool then Unknown else t
  }

  /** The type after storing a non-NULL value of type `item`. */
  function NextType(t: DataType, item: DataType): DataType {
    if t == Unknown then item
    else if t == Int && item in {Int64, Real} then item
    else t
  }

  function TypeAfterCell(src: Source, t: DataType, c: Cell): DataType
    requires src.Valid()
  {
    if c.Null? then t else NextType(t, ItemType(src, c))
  }

  /** The type after all these rows; it does not depend on any capacity. */
  function TypeAfter(src: Source, t0: DataType, rows: seq<Cell>): DataType
    requires src.Valid()
  {
    if rows == [] then Initial(t0)
    else TypeAfterCell(src, TypeAfter(src, t0, rows[..|rows| - 1]), rows[|rows| - 1])
  }

  /** get_data_type(): the declared type stands in while no value has been seen. */
  function Resolve(src: Source, t: DataType): (r: DataType)
    requires src.Valid()
    ensures r != Unknown
  {
    if t == Unknown then src.decl else t
  }

  /** The chain of types: unknown first, then one type, widened at most from INT. */
  predicate Evolves(t: DataType, u: DataType) {
    t == u || t == Unknown || (t == Int && u in {Int64, Real})
  }

  lemma {:induction false} TypesEvolve(src: Source, t0: DataType, rows: seq<Cell>, k: nat)
    requires src.Valid() && k <= |rows|
    ensures Evolves(TypeAfter(src, t0, rows[..k]), TypeAfter(src, t0, rows))
    decreases |rows| - k
  {
    if k == |rows| {
      assert rows[..k] == rows;
    } else {
      assert rows[..k + 1][..k] == rows[..k];
      TypesEvolve(src, t0, rows, k + 1);
    }
  }

  /** A column with a non-NULL row has a type of its own. */
  lemma TypeKnown(src: Source, t0: DataType, rows: seq<Cell>, k: nat)
    requires src.Valid() && k < |rows| && !rows[k].Null?
    ensures TypeAfter(src, t0, rows[..k + 1]) != Unknown
    ensures Evolves(TypeAfter(src, t0, rows[..k + 1]), TypeAfter(src, t0, rows))
    ensures TypeAfter(src, t0, rows) != Unknown
  {
    assert rows[..k + 1][..k] == rows[..k];
    TypesEvolve(src, t0, rows, k + 1);
  }

  // ---------------------------------------------------------------- types seen

  /** The types of all cells seen, NULL cells included. */
  function Seen(src: Source, rows: seq<Cell>): set<DataType>
    requires src.Valid()
  {
    set k | 0 <= k < |rows| :: ItemType(src, rows[k])
  }

  /** What is left to warn about: the types that are not the column's own and not widened to it. */
  function Conflicts(seen: set<DataType>, dt: DataType): set<DataType> {
    (if dt == Real || dt == Int64 then seen - {Int} else seen) - {Unknown, Bool, dt}
  }

  // ---------------------------------------------------------------- the plain list

  /** One row of the final column of type `to`, if it was stored while the type was `stored`. */
  function Converted(src: Source, stored: DataType, to: DataType, c: Cell): (s: Slot)
    requires to != Unknown && (!c.Null? ==> stored != Unknown && Evolves(stored, to))
    ensures HasType(s, to) && (c.Null? ==> IsNA(s))
  {
    FetchHasType(src.co, to, c);
    if c.Null? then NA(to)
    else
      FetchHasType(src.co, stored, c);
      Widen(Fetch(src.co, stored, c), to)
  }

  /** Row `k` is fetched under the type current at row `k` and widened to the type `to`. */
  function ColumnSlot(src: Source, t0: DataType, rows: seq<Cell>, to: DataType, k: nat): Slot
    requires src.Valid() && k < |rows| && to != Unknown && Evolves(TypeAfter(src, t0, rows), to)
  {
    if rows[k].Null? then NA(to)
    else
      TypeKnown(src, t0, rows, k);
      Converted(src, TypeAfter(src, t0, rows[..k + 1]), to, rows[k])
  }

  function ColumnTo(src: Source, t0: DataType, rows: seq<Cell>, to: DataType): (r: seq<Slot>)
    requires src.Valid() && to != Unknown && Evolves(TypeAfter(src, t0, rows), to)
    ensures |r| == |rows| && forall k :: 0 <= k < |rows| ==> r[k] == ColumnSlot(src, t0, rows, to, k)
  {
    seq(|rows|, k requires 0 <= k < |rows| => ColumnSlot(src, t0, rows, to, k))
  }

  /** The column that a fetch of these rows must return: the plain list of converted rows. */
  function Column(src: Source, t0: DataType, rows: seq<Cell>): (r: seq<Slot>)
    requires src.Valid()
    ensures |r| == |rows|
  {
    ColumnTo(src, t0, rows, Resolve(src, TypeAfter(src, t0, rows)))
  }

  // ---------------------------------------------------------------- segments

  /** A segment: its type, the length of its array, and all rows appended to it. */
  datatype Segment = Segment(dt: DataType, cap: nat, rows: seq<Cell>)

  function Max(a: int, b: int): int {
    if a > b then a else b
  }

  /** get_new_capacity() and the array it allocates; an untyped segment has none. */
  function NewCapacity(nMax: int, dt: DataType, desired: int): (capacity: nat)
    ensures dt == Unknown ==> capacity == 0
    ensures dt != Unknown && nMax < 0 ==> capacity >= desired && capacity >= 100 && capacity in {desired, 100}
    ensures dt != Unknown && nMax >= 0 ==> capacity >= desired && capacity >= 1 && capacity in {desired, 1}
  {
    if dt == Unknown then 0 else Max(desired, if nMax < 0 then 100 else 1)
  }

  function NewSegment(nMax: int, dt: DataType, desired: int): Segment {
    Segment(dt, NewCapacity(nMax, dt, desired), [])
  }

  /** The capacity a segment asks for when it spills. */
  function SpillCapacity(nMax: int, s: Segment): int {
    if nMax < 0 then s.cap * 2 else nMax - |s.rows|
  }

  /**
   Rows up to the capacity are stored, later ones are NULL and only counted; an INT segment
   never holds a value that needs a wider type.
   */
  predicate SegmentOk(src: Source, s: Segment)
    requires src.Valid()
  {
    && (s.dt == Unknown <==> s.cap == 0)
    && (forall k :: s.cap <= k < |s.rows| ==> s.rows[k].Null?)
    && (s.dt == Int ==>
          forall k :: 0 <= k < |s.rows| && !s.rows[k].Null? ==> ItemType(src, s.rows[k]) !in {Int64, Real})
  }

  /** Whether a non-NULL value can be stored in place. */
  predicate Fits(src: Source, s: Segment, c: Cell)
    requires src.Valid()
  {
    s.dt != Unknown && |s.rows| < s.cap && NextType(s.dt, ItemType(src, c)) == s.dt
  }

  /** The type that a spilling segment gives its successor. */
  function SpillType(src: Source, s: Segment, c: Cell): DataType
    requires src.Valid()
  {
    if s.dt == Unknown then ItemType(src, c)
    else if |s.rows| >= s.cap then s.dt
    else NextType(s.dt, ItemType(src, c))
  }

  /** How many allocations a value may still need. */
  function Effort(src: Source, s: Segment, c: Cell): nat
    requires src.Valid()
  {
    if s.dt == Unknown then 3
    else if |s.rows| >= s.cap then 2
    else if NextType(s.dt, ItemType(src, c)) != s.dt then 1
    else 0
  }

  lemma EffortFalls(src: Source, nMax: int, s: Segment, c: Cell)
    requires src.Valid() && !c.Null? && !Fits(src, s, c)
    ensures var t := NewSegment(nMax, SpillType(src, s, c), SpillCapacity(nMax, s));
            Effort(src, t, c) < Effort(src, s, c)
  {}

  /** The segment that finally holds a non-NULL value: this one, or one it spills to. */
  function Holder(src: Source, nMax: int, s: Segment, c: Cell): Segment
    requires src.Valid() && !c.Null?
    decreases Effort(src, s, c)
  {
    if Fits(src, s, c) then s.(rows := s.rows + [c])
    else
      EffortFalls(src, nMax, s, c);
      Holder(src, nMax, NewSegment(nMax, SpillType(src, s, c), SpillCapacity(nMax, s)), c)
  }

  /** All segments visited on the way to the holder. */
  function Chain(src: Source, nMax: int, s: Segment, c: Cell): (r: seq<Segment>)
    requires src.Valid() && !c.Null?
    ensures r != []
    decreases Effort(src, s, c)
  {
    if Fits(src, s, c) then [s.(rows := s.rows + [c])]
    else
      EffortFalls(src, nMax, s, c);
      [s] + Chain(src, nMax, NewSegment(nMax, SpillType(src, s, c), SpillCapacity(nMax, s)), c)
  }

  /**
   Appending a value allocates at most two segments.  The one that holds it holds nothing
   else unless it was there before, and a segment passed over on the way holds no row.
   */
  lemma ChainShort(src: Source, nMax: int, s: Segment, c: Cell)
    requires src.Valid() && !c.Null?
    ensures var r := Chain(src, nMax, s, c);
            && 1 <= |r| <= 3 && (|r| == 1 <==> Fits(src, s, c))
            && r[|r| - 1] == Holder(src, nMax, s, c)
            && (|r| > 1 ==> r[0] == s && r[|r| - 1].rows == [c])
            && (|r| == 3 ==> r[1].rows == [] && |s.rows| >= s.cap)
  {
    if !Fits(src, s, c) {
      var t := NewSegment(nMax, SpillType(src, s, c), SpillCapacity(nMax, s));
      assert Chain(src, nMax, s, c) == [s] + Chain(src, nMax, t, c);
      assert Holder(src, nMax, s, c) == Holder(src, nMax, t, c);
      if !Fits(src, t, c) {
        var u := NewSegment(nMax, SpillType(src, t, c), SpillCapacity(nMax, t));
        assert Chain(src, nMax, t, c) == [t] + Chain(src, nMax, u, c);
        assert Holder(src, nMax, t, c) == Holder(src, nMax, u, c);
      }
    }
  }

  /** A row goes into this segment: NULL always, a value if it fits. */
  predicate Stays(src: Source, s: Segment, c: Cell)
    requires src.Valid()
  {
    c.Null? || Fits(src, s, c)
  }

  /** The segment that a row ends up in. */
  function Target(src: Source, nMax: int, s: Segment, c: Cell): Segment
    requires src.Valid()
  {
    if c.Null? then s.(rows := s.rows + [c]) else Holder(src, nMax, s, c)
  }

  /** The column's list after a row: a spill lists the holder only. */
  function Append(src: Source, nMax: int, segs: seq<Segment>, c: Cell): (r: seq<Segment>)
    requires src.Valid() && segs != []
    ensures r != []
  {
    var last := segs[|segs| - 1];
    (if Stays(src, last, c) then segs[..|segs| - 1] else segs) + [Target(src, nMax, last, c)]
  }

  /** The segments of a column after these rows. */
  function Layout(src: Source, nMax: int, t0: DataType, rows: seq<Cell>): (r: seq<Segment>)
    requires src.Valid()
    ensures r != []
  {
    if rows == [] then [NewSegment(nMax, Initial(t0), 0)]
    else Append(src, nMax, Layout(src, nMax, t0, rows[..|rows| - 1]), rows[|rows| - 1])
  }

  function Flatten(segs: seq<Segment>): seq<Cell> {
    if segs == [] then [] else Flatten(segs[..|segs| - 1]) + segs[|segs| - 1].rows
  }

  lemma FlattenSnoc(segs: seq<Segment>, s: Segment)
    ensures Flatten(segs + [s]) == Flatten(segs) + s.rows
  {
    assert (segs + [s])[..|segs|] == segs;
  }

  /** `r` is `segs` with one row more, in its last segment or in a new one. */
  predicate Extends(segs: seq<Segment>, r: seq<Segment>, c: Cell)
    requires segs != [] && r != []
  {
    var last, new_ := segs[|segs| - 1], r[|r| - 1];
    || (r == segs[..|segs| - 1] + [new_] && new_ == last.(rows := last.rows + [c]))
    || (r == segs + [new_] && new_.rows == [c] && !c.Null?)
  }

  lemma HolderFacts(src: Source, nMax: int, s: Segment, c: Cell)
    requires src.Valid() && !c.Null? && SegmentOk(src, s)
    ensures var h := Holder(src, nMax, s, c);
            && SegmentOk(src, h)
            && h.dt == NextType(s.dt, ItemType(src, c))
            && (if Fits(src, s, c) then h == s.(rows := s.rows + [c]) else h.rows == [c])
    decreases Effort(src, s, c)
  {
    if !Fits(src, s, c) {
      EffortFalls(src, nMax, s, c);
      HolderFacts(src, nMax, NewSegment(nMax, SpillType(src, s, c), SpillCapacity(nMax, s)), c);
    }
  }

  lemma AppendExtends(src: Source, nMax: int, segs: seq<Segment>, c: Cell)
    requires src.Valid() && segs != [] && SegmentOk(src, segs[|segs| - 1])
    ensures var r := Append(src, nMax, segs, c);
            && Extends(segs, r, c)
            && SegmentOk(src, r[|r| - 1])
            && r[|r| - 1].dt == TypeAfterCell(src, segs[|segs| - 1].dt, c)
  {
    if !c.Null? {
      HolderFacts(src, nMax, segs[|segs| - 1], c);
    }
  }

  lemma FlattenExtends(segs: seq<Segment>, r: seq<Segment>, c: Cell)
    requires segs != [] && r != [] && Extends(segs, r, c)
    ensures Flatten(r) == Flatten(segs) + [c]
  {
    var init, last, new_ := segs[..|segs| - 1], segs[|segs| - 1], r[|r| - 1];
    if r == segs + [new_] && new_.rows == [c] {
      FlattenSnoc(segs, new_);
    } else {
      assert segs == init + [last];
      FlattenSnoc(init, last);
      FlattenSnoc(init, new_);
      assert Flatten(init) + (last.rows + [c]) == Flatten(init) + last.rows + [c];
    }
  }

  /** Every listed segment is sound and of a type on the chain to `t`. */
  predicate AllOk(src: Source, segs: seq<Segment>, t: DataType)
    requires src.Valid()
  {
    forall k :: 0 <= k < |segs| ==> SegmentOk(src, segs[k]) && Evolves(segs[k].dt, t)
  }

  lemma AllOkExtends(src: Source, segs: seq<Segment>, r: seq<Segment>, c: Cell, t: DataType)
    requires src.Valid() && segs != [] && r != [] && Extends(segs, r, c)
    requires AllOk(src, segs, segs[|segs| - 1].dt) && SegmentOk(src, r[|r| - 1])
    requires r[|r| - 1].dt == t && (t == segs[|segs| - 1].dt || Evolves(segs[|segs| - 1].dt, t))
    ensures AllOk(src, r, t)
  {
    forall k | 0 <= k < |r| ensures SegmentOk(src, r[k]) && Evolves(r[k].dt, t) {
      if k < |r| - 1 {
        assert r[k] == segs[k];
      }
    }
  }

  // ---------------------------------------------------------------- copying segments

  /** A segment copied into a vector of type `to`. */
  function CopySegment(src: Source, s: Segment, to: DataType): (r: seq<Slot>)
    requires to != Unknown && Evolves(s.dt, to) && src.Valid() && SegmentOk(src, s)
    ensures |r| == |s.rows| && forall k :: 0 <= k < |r| ==> r[k] == Converted(src, s.dt, to, s.rows[k])
  {
    seq(|s.rows|, k requires 0 <= k < |s.rows| => Converted(src, s.dt, to, s.rows[k]))
  }

  function CopyAll(src: Source, segs: seq<Segment>, to: DataType): seq<Slot>
    requires src.Valid() && to != Unknown && AllOk(src, segs, to)
  {
    if segs == [] then []
    else CopyAll(src, segs[..|segs| - 1], to) + CopySegment(src, segs[|segs| - 1], to)
  }

  lemma CopyAllSnoc(src: Source, segs: seq<Segment>, s: Segment, to: DataType)
    requires src.Valid() && to != Unknown && AllOk(src, segs, to) && SegmentOk(src, s) && Evolves(s.dt, to)
    ensures AllOk(src, segs + [s], to)
    ensures CopyAll(src, segs + [s], to) == CopyAll(src, segs, to) + CopySegment(src, s, to)
  {
    assert (segs + [s])[..|segs|] == segs;
  }

  lemma CopyExtends(src: Source, segs: seq<Segment>, r: seq<Segment>, c: Cell, to: DataType)
    requires src.Valid() && to != Unknown && segs != [] && r != [] && Extends(segs, r, c)
    requires AllOk(src, segs, to) && SegmentOk(src, r[|r| - 1]) && Evolves(r[|r| - 1].dt, to)
    requires !c.Null? ==> r[|r| - 1].dt != Unknown
    ensures AllOk(src, r, to)
    ensures CopyAll(src, r, to) == CopyAll(src, segs, to) + [Converted(src, r[|r| - 1].dt, to, c)]
  {
    var init, last, new_ := segs[..|segs| - 1], segs[|segs| - 1], r[|r| - 1];
    if r == segs + [new_] && new_.rows == [c] {
      CopyAllSnoc(src, segs, new_, to);
      assert CopySegment(src, new_, to) == [Converted(src, new_.dt, to, c)];
    } else {
      assert segs == init + [last];
      CopyAllSnoc(src, init, last, to);
      CopyAllSnoc(src, init, new_, to);
      CopySegmentSnoc(src, last, c, to);
    }
  }

  lemma CopySegmentSnoc(src: Source, s: Segment, c: Cell, to: DataType)
    requires src.Valid() && to != Unknown && Evolves(s.dt, to) && SegmentOk(src, s)
    requires SegmentOk(src, s.(rows := s.rows + [c])) && (!c.Null? ==> s.dt != Unknown)
    ensures CopySegment(src, s.(rows := s.rows + [c]), to) == CopySegment(src, s, to) + [Converted(src, s.dt, to, c)]
  {}

  /** A slot depends on the rows up to it and on the target type only. */
  lemma SlotStable(src: Source, t0: DataType, rows: seq<Cell>, c: Cell, to: DataType, k: nat)
    requires src.Valid() && k < |rows| && to != Unknown
    requires Evolves(TypeAfter(src, t0, rows), to) && Evolves(TypeAfter(src, t0, rows + [c]), to)
    ensures ColumnSlot(src, t0, rows + [c], to, k) == ColumnSlot(src, t0, rows, to, k)
  {
    assert (rows + [c])[..k + 1] == rows[..k + 1];
  }

  lemma TypeAfterSnoc(src: Source, t0: DataType, rows: seq<Cell>, c: Cell)
    requires src.Valid()
    ensures TypeAfter(src, t0, rows + [c]) == TypeAfterCell(src, TypeAfter(src, t0, rows), c)
  {
    assert (rows + [c])[..|rows|] == rows;
  }

  lemma ColumnToSnoc(src: Source, t0: DataType, rows: seq<Cell>, c: Cell, to: DataType)
    requires src.Valid() && to != Unknown
    requires Evolves(TypeAfterCell(src, TypeAfter(src, t0, rows), c), to)
    ensures Evolves(TypeAfter(src, t0, rows), to) && Evolves(TypeAfter(src, t0, rows + [c]), to)
    ensures ColumnTo(src, t0, rows + [c], to) ==
            ColumnTo(src, t0, rows, to) + [Converted(src, TypeAfterCell(src, TypeAfter(src, t0, rows), c), to, c)]
  {
    TypeAfterSnoc(src, t0, rows, c);
    var r, before := ColumnTo(src, t0, rows + [c], to), ColumnTo(src, t0, rows, to);
    forall k | 0 <= k < |rows| ensures r[k] == before[k] {
      SlotStable(src, t0, rows, c, to, k);
    }
    assert r[|rows|] == Converted(src, TypeAfterCell(src, TypeAfter(src, t0, rows), c), to, c) by {
      assert (rows + [c])[..|rows| + 1] == rows + [c];
      assert r[|rows|] == ColumnSlot(src, t0, rows + [c], to, |rows|);
    }
  }

  // ---------------------------------------------------------------- the two agree

  /** What the segments of a column keep while rows are appended. */
  predicate Good(src: Source, t0: DataType, rows: seq<Cell>, segs: seq<Segment>)
    requires src.Valid()
  {
    && segs != []
    && Flatten(segs) == rows
    && segs[|segs| - 1].dt == TypeAfter(src, t0, rows)
    && AllOk(src, segs, TypeAfter(src, t0, rows))
  }

  lemma GoodStart(src: Source, nMax: int, t0: DataType)
    requires src.Valid()
    ensures Good(src, t0, [], [NewSegment(nMax, Initial(t0), 0)])
  {
    FlattenSnoc([], NewSegment(nMax, Initial(t0), 0));
    assert [] + [NewSegment(nMax, Initial(t0), 0)] == [NewSegment(nMax, Initial(t0), 0)];
  }

  lemma GoodExtends(src: Source, t0: DataType, rows: seq<Cell>, segs: seq<Segment>, r: seq<Segment>, c: Cell)
    requires src.Valid() && Good(src, t0, rows, segs) && r != [] && Extends(segs, r, c)
    requires SegmentOk(src, r[|r| - 1]) && r[|r| - 1].dt == TypeAfterCell(src, TypeAfter(src, t0, rows), c)
    ensures Good(src, t0, rows + [c], r)
  {
    FlattenExtends(segs, r, c);
    TypeAfterSnoc(src, t0, rows, c);
    AllOkExtends(src, segs, r, c, r[|r| - 1].dt);
  }

  /** Appending any row keeps the segments sound. */
  lemma AppendKeepsGood(src: Source, nMax: int, t0: DataType, rows: seq<Cell>, segs: seq<Segment>, c: Cell)
    requires src.Valid() && Good(src, t0, rows, segs)
    ensures Good(src, t0, rows + [c], Append(src, nMax, segs, c))
  {
    AppendExtends(src, nMax, segs, c);
    GoodExtends(src, t0, rows, segs, Append(src, nMax, segs, c), c);
  }

  lemma LayoutSnoc(src: Source, nMax: int, t0: DataType, rows: seq<Cell>, c: Cell)
    requires src.Valid()
    ensures Layout(src, nMax, t0, rows + [c]) == Append(src, nMax, Layout(src, nMax, t0, rows), c)
  {
    assert (rows + [c])[..|rows|] == rows;
  }

  /**
   For every sequence of rows: the listed segments hold all rows in order, the last one has
   the current type, and their types form a chain that ends there.
   */
  lemma {:induction false} LayoutIsGood(src: Source, nMax: int, t0: DataType, rows: seq<Cell>)
    requires src.Valid()
    ensures Good(src, t0, rows, Layout(src, nMax, t0, rows))
    decreases |rows|
  {
    if rows == [] {
      GoodStart(src, nMax, t0);
    } else {
      var before, c := rows[..|rows| - 1], rows[|rows| - 1];
      assert rows == before + [c];
      LayoutIsGood(src, nMax, t0, before);
      LayoutSnoc(src, nMax, t0, before, c);
      AppendKeepsGood(src, nMax, t0, before, Layout(src, nMax, t0, before), c);
    }
  }

  /** Copied segments that hold these rows give the plain list. */
  predicate CopiesTo(src: Source, t0: DataType, rows: seq<Cell>, segs: seq<Segment>, to: DataType)
    requires src.Valid() && to != Unknown && Evolves(TypeAfter(src, t0, rows), to)
  {
    AllOk(src, segs, to) && CopyAll(src, segs, to) == ColumnTo(src, t0, rows, to)
  }

  lemma CopiesExtends(src: Source, t0: DataType, rows: seq<Cell>, segs: seq<Segment>, r: seq<Segment>, c: Cell,
                      to: DataType)
    requires src.Valid() && to != Unknown && segs != [] && r != [] && Extends(segs, r, c)
    requires SegmentOk(src, r[|r| - 1]) && r[|r| - 1].dt == TypeAfterCell(src, TypeAfter(src, t0, rows), c)
    requires Evolves(r[|r| - 1].dt, to) && Evolves(TypeAfter(src, t0, rows), to)
    requires CopiesTo(src, t0, rows, segs, to)
    ensures Evolves(TypeAfter(src, t0, rows + [c]), to) && CopiesTo(src, t0, rows + [c], r, to)
  {
    ColumnToSnoc(src, t0, rows, c, to);
    CopyExtends(src, segs, r, c, to);
  }

  lemma CopiesStart(src: Source, nMax: int, t0: DataType, to: DataType)
    requires src.Valid() && to != Unknown && Evolves(Initial(t0), to)
    ensures CopiesTo(src, t0, [], [NewSegment(nMax, Initial(t0), 0)], to)
  {
    var s := NewSegment(nMax, Initial(t0), 0);
    assert [] + [s] == [s];
    CopyAllSnoc(src, [], s, to);
    assert CopySegment(src, s, to) == [];
  }

  lemma CopiesAppend(src: Source, nMax: int, t0: DataType, rows: seq<Cell>, segs: seq<Segment>, c: Cell, to: DataType)
    requires src.Valid() && to != Unknown && Good(src, t0, rows, segs)
    requires Evolves(TypeAfter(src, t0, rows), to) && Evolves(TypeAfter(src, t0, rows + [c]), to)
    requires CopiesTo(src, t0, rows, segs, to)
    ensures CopiesTo(src, t0, rows + [c], Append(src, nMax, segs, c), to)
  {
    AppendExtends(src, nMax, segs, c);
    TypeAfterSnoc(src, t0, rows, c);
    CopiesExtends(src, t0, rows, segs, Append(src, nMax, segs, c), c, to);
  }

  /** Copying the segments gives the plain list, in any later type: capacities do not show. */
  lemma {:induction false} CopyIsColumn(src: Source, nMax: int, t0: DataType, rows: seq<Cell>, to: DataType)
    requires src.Valid() && to != Unknown && Evolves(TypeAfter(src, t0, rows), to)
    ensures CopiesTo(src, t0, rows, Layout(src, nMax, t0, rows), to)
    decreases |rows|
  {
    if rows == [] {
      CopiesStart(src, nMax, t0, to);
    } else {
      var before, c := rows[..|rows| - 1], rows[|rows| - 1];
      assert rows == before + [c];
      TypesEvolve(src, t0, rows, |before|);
      CopyIsColumn(src, nMax, t0, before, to);
      LayoutIsGood(src, nMax, t0, before);
      LayoutSnoc(src, nMax, t0, before, c);
      CopiesAppend(src, nMax, t0, before, Layout(src, nMax, t0, before), c, to);
    }
  }

  /** The whole column: the segments, copied into a vector of the final type, are the plain list. */
  lemma SegmentsGiveColumn(src: Source, nMax: int, t0: DataType, rows: seq<Cell>)
    requires src.Valid()
    ensures var to := Resolve(src, TypeAfter(src, t0, rows));
            && AllOk(src, Layout(src, nMax, t0, rows), to)
            && CopyAll(src, Layout(src, nMax, t0, rows), to) == Column(src, t0, rows)
  {
    CopyIsColumn(src, nMax, t0, rows, Resolve(src, TypeAfter(src, t0, rows)));
  }
}
