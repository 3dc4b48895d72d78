/** A segment of a result column, filled and copied in place (src/DbColumnStorage.cpp). */
module ColumnStorage {
  import opened Values
  import opened ColumnSpec

  class DbColumnStorage {
    const source: Source
    const nMax: int
    const dt: DataType
    const data: array<Slot>
    var i: nat
    ghost var rows: seq<Cell>

    /** The segment that this object implements. */
    ghost function View(): Segment
      reads this
    {
      Segment(dt, data.Length, rows)
    }

    /** What array slot `k` must hold. */
    static ghost predicate Stored(co: Engine, dt: DataType, c: Cell, s: Slot)
      requires dt != Unknown
    {
      s == if c.Null? then NA(dt) else Fetch(co, dt, c)
    }

    /**
     All rows were counted, the first min(i, capacity) of them are stored, and all rows
     behind the capacity are NULL.
     */
    ghost predicate Valid()
      reads this, data
    {
      && source.Valid()
      && |rows| == i
      && SegmentOk(source, View())
      && forall k :: 0 <= k < i && k < data.Length ==> dt != Unknown && Stored(source.co, dt, rows[k], data[k])
    }

    constructor (dt: DataType, capacity: int, nMax: int, source: Source)
      requires source.Valid()
      ensures Valid() && fresh(data)
      ensures View() == NewSegment(nMax, dt, capacity)
      ensures this.source == source && this.nMax == nMax
    {
      this.source, this.nMax, this.dt := source, nMax, dt;
      data := new Slot[NewCapacity(nMax, dt, capacity)];
      i := 0;
      rows := [];
    }

    function GetCapacity(): nat {
      data.Length
    }

    function GetDataType(): DataType
      requires source.Valid()
    {
      if dt == Unknown then source.decl else dt
    }

    /**
     Appends the current cell and returns the segment that holds it: this one, or the last
     of at most two new ones.
     */
    method AppendCol(c: Cell) returns (next: DbColumnStorage, ghost created: nat)
      requires Valid()
      modifies this, data
      ensures Valid() && next.Valid() && next.source == source && next.nMax == nMax
      ensures next == this || (fresh(next) && fresh(next.data))
      ensures next.View() == Target(source, nMax, old(View()), c)
      ensures next == this <==> Stays(source, old(View()), c)
      ensures next != this ==> View() == old(View())
      ensures created <= 2 && (created == 0 <==> next == this)
    {
      if c.Null? {
        AppendNull(c);
        next, created := this, 0;
      } else {
        ChainShort(source, nMax, View(), c);
        next, created := AppendData(c);
      }
    }

    method AppendNull(c: Cell)
      requires Valid() && c.Null?
      modifies this, data
      ensures Valid() && View() == old(View()).(rows := old(rows) + [c])
    {
      if i < GetCapacity() {
        data[i] := NA(dt);
      }
      i := i + 1;
      rows := rows + [c];
    }

    /** `created` counts the segments allocated on the way, which form the specified chain. */
    method AppendData(c: Cell) returns (next: DbColumnStorage, ghost created: nat)
      requires Valid() && !c.Null?
      modifies this, data
      ensures Valid() && next.Valid() && next.source == source && next.nMax == nMax
      ensures next == this || (fresh(next) && fresh(next.data))
      ensures next.View() == Holder(source, nMax, old(View()), c)
      ensures next == this <==> Fits(source, old(View()), c)
      ensures next != this ==> View() == old(View())
      ensures created + 1 == |Chain(source, nMax, old(View()), c)|
      decreases Effort(source, View(), c), 1
    {
      if dt == Unknown {
        next, created := AppendDataToNew(dt, c);
        return;
      }
      if i >= GetCapacity() {
        next, created := AppendDataToNew(dt, c);
        return;
      }
      var newDt := ItemType(source, c);
      if dt == Int && newDt == Int64 {
        next, created := AppendDataToNew(Int64, c);
        return;
      }
      if dt == Int && newDt == Real {
        next, created := AppendDataToNew(Real, c);
        return;
      }
      FetchValue(c);
      next, created := this, 0;
    }

    /** Stores a value that fits and counts its row. */
    method FetchValue(c: Cell)
      requires Valid() && !c.Null? && Fits(source, View(), c)
      modifies this, data
      ensures Valid() && View() == old(View()).(rows := old(rows) + [c])
    {
      data[i] := Fetch(source.co, dt, c);
      i := i + 1;
      rows := rows + [c];
    }

    method AppendDataToNew(newDt: DataType, c: Cell) returns (next: DbColumnStorage, ghost created: nat)
      requires Valid() && !c.Null? && !Fits(source, View(), c)
      requires (if newDt == Unknown then ItemType(source, c) else newDt) == SpillType(source, View(), c)
      ensures next.Valid() && next.source == source && next.nMax == nMax
      ensures fresh(next) && fresh(next.data)
      ensures next.View() == Holder(source, nMax, View(), c)
      ensures created + 1 == |Chain(source, nMax, View(), c)|
      decreases Effort(source, View(), c), 0
    {
      var spillDt := if newDt == Unknown then ItemType(source, c) else newDt;
      var desired := if nMax < 0 then GetCapacity() * 2 else nMax - i;
      var spillover := new DbColumnStorage(spillDt, desired, nMax, source);
      EffortFalls(source, nMax, View(), c);
      next, created := spillover.AppendData(c);
      created := created + 1;
    }

    /** The first `src` rows stand in `x` from `pos` on, converted. */
    ghost predicate Copied(x: array<Slot>, to: DataType, pos: nat, src: nat)
      requires Valid() && to != Unknown && Evolves(dt, to)
      reads this, data, x
    {
      src <= i && pos + src <= x.Length && x[pos..pos + src] == CopySegment(source, View(), to)[..src]
    }

    /** One more row, converted and put behind those already copied. */
    lemma CopiedSnoc(before: seq<Slot>, after: seq<Slot>, to: DataType, src: nat)
      requires Valid() && to != Unknown && Evolves(dt, to) && src < i
      requires before == CopySegment(source, View(), to)[..src]
      requires after == before + [Converted(source, dt, to, rows[src])]
      ensures after == CopySegment(source, View(), to)[..src + 1]
    {}

    /** The loop over the rows that the array holds. */
    method CopyStored(x: array<Slot>, to: DataType, pos: nat) returns (src: nat)
      requires Valid() && x != data && pos <= x.Length && to != Unknown && Evolves(dt, to)
      modifies x
      ensures Copied(x, to, pos, src) && x[..pos] == old(x[..pos])
      ensures src < i && pos + src < x.Length ==> src >= data.Length
    {
      src := 0;
      var tgt := pos;
      while src < GetCapacity() && src < i && tgt < x.Length
        invariant tgt == pos + src && src <= data.Length
        invariant Copied(x, to, pos, src) && x[..pos] == old(x[..pos])
      {
        StoredWidens(source, dt, rows[src], data[src], to);
        ghost var before := x[pos..tgt];
        x[tgt] := Widen(data[src], to);
        assert x[pos..tgt + 1] == before + [x[tgt]];
        CopiedSnoc(before, x[pos..tgt + 1], to, src);
        src, tgt := src + 1, tgt + 1;
      }
    }

    /** Copies the rows that fit into `x` from `pos` on; rows behind the capacity become NA. */
    method CopyTo(x: array<Slot>, to: DataType, pos: nat) returns (src: nat)
      requires Valid() && x != data && pos <= x.Length
      requires to != Unknown && Evolves(dt, to)
      modifies x
      ensures src == (if i <= x.Length - pos then i else x.Length - pos)
      ensures Copied(x, to, pos, src) && x[..pos] == old(x[..pos])
    {
      src := CopyStored(x, to, pos);
      var tgt := pos + src;
      while src < i && tgt < x.Length
        invariant tgt == pos + src
        invariant src < i && tgt < x.Length ==> src >= data.Length
        invariant Copied(x, to, pos, src) && x[..pos] == old(x[..pos])
      {
        ghost var before := x[pos..tgt];
        x[tgt] := NA(to);
        assert x[pos..tgt + 1] == before + [x[tgt]];
        CopiedSnoc(before, x[pos..tgt + 1], to, src);
        src, tgt := src + 1, tgt + 1;
      }
    }
  }

  /** The chain of types never makes copy_value() meet a pair of types it does not define. */
  lemma StoredWidens(src: Source, dt: DataType, c: Cell, s: Slot, to: DataType)
    requires dt != Unknown && to != Unknown && Evolves(dt, to) && DbColumnStorage.Stored(src.co, dt, c, s)
    ensures Copyable(s, to) && Widen(s, to) == Converted(src, dt, to, c)
  {
    FetchHasType(src.co, dt, c);
  }
}
