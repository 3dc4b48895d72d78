/** A result column: its list of segments and the types seen (src/DbColumn.cpp). */
module ResultColumn {
  import opened Values
  import opened ColumnSpec
  import opened ColumnStorage

  /** The storage objects and their arrays. */
  ghost function Footprint(st: seq<DbColumnStorage>): set<object> {
    if st == [] then {}
    else Footprint(st[..|st| - 1]) + {st[|st| - 1], st[|st| - 1].data}
  }

  /** Valid segments of one column, none of which shares anything with an earlier one. */
  ghost predicate Sound(st: seq<DbColumnStorage>, src: Source, nMax: int)
    reads Footprint(st)
  {
    st == [] || (
      var last := st[|st| - 1];
      && Sound(st[..|st| - 1], src, nMax)
      && last.Valid() && last.source == src && last.nMax == nMax
      && last !in Footprint(st[..|st| - 1]) && last.data !in Footprint(st[..|st| - 1]))
  }

  /** The segments behind a list of storage objects. */
  ghost function Views(st: seq<DbColumnStorage>): (r: seq<Segment>)
    reads Footprint(st)
    ensures |r| == |st|
  {
    if st == [] then [] else Views(st[..|st| - 1]) + [st[|st| - 1].View()]
  }

  lemma ViewsOfLast(st: seq<DbColumnStorage>)
    requires st != []
    ensures Views(st) == Views(st[..|st| - 1]) + [st[|st| - 1].View()]
  {}

  lemma SoundSnoc(st: seq<DbColumnStorage>, s: DbColumnStorage, src: Source, nMax: int)
    requires Sound(st, src, nMax) && s.Valid() && s.source == src && s.nMax == nMax
    requires s !in Footprint(st) && s.data !in Footprint(st)
    ensures Sound(st + [s], src, nMax)
    ensures Views(st + [s]) == Views(st) + [s.View()]
    ensures Footprint(st + [s]) == Footprint(st) + {s, s.data}
  {
    assert (st + [s])[..|st|] == st;
  }

  lemma SeenSnoc(src: Source, rows: seq<Cell>, c: Cell)
    requires src.Valid()
    ensures Seen(src, rows + [c]) == Seen(src, rows) + {ItemType(src, c)}
  {
    var all := rows + [c];
    assert all[|rows|] == c;
    forall t | t in Seen(src, rows) ensures t in Seen(src, all) {
      var k :| 0 <= k < |rows| && t == ItemType(src, rows[k]);
      assert all[k] == rows[k];
    }
  }

  class DbColumn {
    const source: Source
    const nMax: int
    ghost const initial: DataType
    var storage: seq<DbColumnStorage>
    var n: nat
    var dataTypesSeen: set<DataType>
    ghost var rows: seq<Cell>
    ghost var repr: set<object>

    /** The segments belong to this column alone, and none shares anything with another. */
    ghost predicate Structure()
      reads `storage, `repr, repr
    {
      && repr == Footprint(storage) && this !in repr
      && storage != [] && source.Valid() && Sound(storage, source, nMax)
    }

    ghost predicate Valid()
      reads this, repr
    {
      && Structure()
      && Views(storage) == Layout(source, nMax, initial, rows)
      && dataTypesSeen == Seen(source, rows)
      && n <= |rows|
    }

    constructor (dt: DataType, nMax: int, source: Source)
      requires source.Valid()
      ensures Valid() && fresh(repr)
      ensures this.source == source && this.nMax == nMax && initial == dt && rows == [] && n == 0
    {
      this.source, this.nMax, initial := source, nMax, dt;
      var first := new DbColumnStorage(if dt == Bool then Unknown else dt, 0, nMax, source);
      storage, n, dataTypesSeen, rows := [first], 0, {}, [];
      repr := {first, first.data};
      new;
      SoundSnoc([], first, source, nMax);
      assert [] + [first] == [first];
    }

    function GetLastStorage(): DbColumnStorage
      requires storage != []
      reads this
    {
      storage[|storage| - 1]
    }

    /** Appends the current cell to the last segment, which alone may change. */
    method AppendToStorage(c: Cell) returns (next: DbColumnStorage)
      requires Structure()
      modifies repr
      ensures Structure() && next.Valid() && next.source == source && next.nMax == nMax
      ensures var last, segs := GetLastStorage(), old(Views(storage));
              && (next == last <==> Stays(source, segs[|segs| - 1], c))
              && (next != last ==> fresh(next) && fresh(next.data))
              && next.View() == Target(source, nMax, segs[|segs| - 1], c)
              && Views(storage) == if next == last then segs[..|segs| - 1] + [next.View()] else segs
    {
      hide Stays, Target;
      ViewsOfLast(storage);
      var last := GetLastStorage();
      ghost var created: nat;
      next, created := last.AppendCol(c);
      ViewsOfLast(storage);
    }

    /** Appends the current cell to the last segment; one that it spills to is listed. */
    method AppendToLast(c: Cell)
      requires Structure()
      modifies `storage, `repr, repr
      ensures Structure() && fresh(repr - old(repr))
      ensures Views(storage) == Append(source, nMax, old(Views(storage)), c)
    {
      hide Stays, Target, Sound, Views, Footprint;
      var next := AppendToStorage(c);
      if next != GetLastStorage() {
        SoundSnoc(storage, next, source, nMax);
        storage := storage + [next];
        repr := repr + {next, next.data};
      }
    }

    /** Appends the current cell and notes its type. */
    method SetColValue(c: Cell)
      requires Valid()
      modifies this, repr
      ensures Valid() && fresh(repr - old(repr))
      ensures rows == old(rows) + [c] && n == old(n)
    {
      hide Layout, Append, Sound, Views, Footprint, Seen, ItemType;
      LayoutSnoc(source, nMax, initial, rows, c);
      SeenSnoc(source, rows, c);
      dataTypesSeen := dataTypesSeen + {ItemType(source, c)};
      AppendToLast(c);
      rows := rows + [c];
    }

    method Finalize(n: nat)
      requires Valid() && n <= |rows|
      modifies `n
      ensures Valid() && this.n == n
    {
      this.n := n;
    }

    /** The type of the finished column. */
    function GetType(): (dt: DataType)
      requires Valid()
      reads this, repr
      ensures dt == Resolve(source, TypeAfter(source, initial, rows))
    {
      LayoutIsGood(source, nMax, initial, rows);
      ViewsOfLast(storage);
      GetLastStorage().GetDataType()
    }

    /** The types that the warning names; no warning is given if there are none. */
    function WarnTypeConflicts(): (conflicts: set<DataType>)
      requires Valid()
      reads this, repr
      ensures conflicts == Conflicts(Seen(source, rows), Resolve(source, TypeAfter(source, initial, rows)))
    {
      var dt := GetType();
      var seen := if dt == Real || dt == Int64 then dataTypesSeen - {Int} else dataTypesSeen;
      seen - {Unknown} - {Bool} - {dt}
    }

    /** The R vector: all segments copied, one after the other, into an array of `n` slots. */
    method ToSexp() returns (x: array<Slot>)
      requires Valid()
      ensures fresh(x) && x.Length == n
      ensures x[..] == Column(source, initial, rows)[..n]
    {
      hide Layout, Column, CopyAll, AllOk, Sound, Views, Footprint, Seen, TypeAfter;
      var to := GetType();
      SegmentsGiveColumn(source, nMax, initial, rows);
      x := new Slot[n];
      CopySegments(storage, source, nMax, to, x, repr);
      assert x[..] == x[..n];
    }
  }

  function Min(a: nat, b: nat): nat {
    if a < b then a else b
  }

  lemma {:induction false} SoundAt(st: seq<DbColumnStorage>, src: Source, nMax: int, k: nat)
    requires Sound(st, src, nMax) && k < |st|
    ensures st[k].Valid() && st[k].source == src && st[k].data in Footprint(st)
    ensures Views(st)[k] == st[k].View()
    decreases |st|
  {
    if k < |st| - 1 {
      SoundAt(st[..|st| - 1], src, nMax, k);
    }
  }

  /** One more segment behind those already copied, as far as the vector reaches. */
  lemma CopyStep(src: Source, segs: seq<Segment>, k: nat, to: DataType)
    requires src.Valid() && to != Unknown && AllOk(src, segs, to) && k < |segs|
    ensures AllOk(src, segs[..k], to) && AllOk(src, segs[..k + 1], to)
    ensures Evolves(segs[k].dt, to) && SegmentOk(src, segs[k])
    ensures CopyAll(src, segs[..k + 1], to) == CopyAll(src, segs[..k], to) + CopySegment(src, segs[k], to)
  {
    assert segs[..k + 1] == segs[..k] + [segs[k]];
    CopyAllSnoc(src, segs[..k], segs[k], to);
  }

  lemma CopyNothing(src: Source, segs: seq<Segment>, to: DataType)
    requires src.Valid() && to != Unknown
    ensures AllOk(src, segs[..0], to) && CopyAll(src, segs[..0], to) == []
  {}

  lemma SlicesJoin(x: seq<Slot>, before: seq<Slot>, more: seq<Slot>, pos: nat, copied: nat)
    requires pos == Min(|before|, |x|) && copied == Min(|more|, |x| - pos)
    requires x[..pos] == before[..pos] && x[pos..pos + copied] == more[..copied]
    ensures pos + copied == Min(|before + more|, |x|) && x[..pos + copied] == (before + more)[..pos + copied]
  {
    assert x[..pos + copied] == x[..pos] + x[pos..pos + copied];
  }

  /** Fills the vector from the front with the converted rows of all segments. */
  method CopySegments(storage: seq<DbColumnStorage>, ghost src: Source, ghost nMax: int, to: DataType, x: array<Slot>,
                      ghost repr: set<object>)
    requires src.Valid() && Sound(storage, src, nMax) && repr == Footprint(storage) && x !in repr
    requires to != Unknown && AllOk(src, Views(storage), to)
    modifies x
    ensures var all := old(CopyAll(src, Views(storage), to));
            x[..Min(|all|, x.Length)] == all[..Min(|all|, x.Length)]
  {
    hide CopyAll, AllOk, SegmentOk, CopySegment, Evolves, Sound, Views, Footprint;
    ghost var segs := Views(storage);
    var pos := 0;
    var k := 0;
    CopyNothing(src, segs, to);
    while k < |storage|
      invariant 0 <= k <= |storage| && pos <= x.Length
      invariant Sound(storage, src, nMax) && Views(storage) == segs
      invariant AllOk(src, segs[..k], to)
      invariant pos == Min(|CopyAll(src, segs[..k], to)|, x.Length)
      invariant x[..pos] == CopyAll(src, segs[..k], to)[..pos]
    {
      SoundAt(storage, src, nMax, k);
      CopyStep(src, segs, k, to);
      ghost var before, more := CopyAll(src, segs[..k], to), CopySegment(src, segs[k], to);
      var copied := storage[k].CopyTo(x, to, pos);
      SlicesJoin(x[..], before, more, pos, copied);
      pos := pos + copied;
      k := k + 1;
    }
    assert segs[..k] == segs;
  }
}
