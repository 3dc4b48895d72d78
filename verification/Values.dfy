/**
 Cells of a query result, R vector slots, and the conversions between them
 (src/SqliteColumnDataSource.cpp, src/DbColumnStorage.cpp).
 */
module Values {
  import opened Bytes
  import opened Wrappers
  import Affinity

  type int32 = v: int | -0x8000_0000 <= v < 0x8000_0000

  type int64 = v: int | -0x8000_0000_0000_0000 <= v < 0x8000_0000_0000_0000

  const NA_INTEGER: int32 := -0x8000_0000

  const NA_INTEGER64: int64 := -0x8000_0000_0000_0000

  datatype DataType =
    | Unknown | Bool | Int | Int64 | Real | String | Blob | Date | DateTime | DateTimeTz | Time

  /** One column of the current row, as SQLite holds it. */
  datatype Cell = Null | Integer(v: int64) | Float(r: real) | Text(t: Bytes) | Binary(b: Bytes)

  /** A double: the missing value or a number (infinities and other NaNs are not modelled). */
  datatype Double = NaReal | Num(r: real)

  /** One element of an R vector. */
  datatype Slot =
    | LogicalSlot(l: int32)
    | IntSlot(i: int32)
    | Int64Slot(i64: int64)
    | RealSlot(d: Double)
    | StringSlot(s: Option<Bytes>)  // None is NA_character_
    | ListSlot(raw: Option<Bytes>)  // None is NULL

  /** SQLite's and Boost's conversions between storage classes, as parameters of the model. */
  datatype Coercions = Coercions(
    round: int64 -> real,          // (double) of a 64-bit integer
    toInt64: Cell -> int64,        // sqlite3_column_int64() of a cell that is no integer
    toReal: Cell -> real,          // sqlite3_column_double() of text or blob
    toText: Cell -> Bytes,         // sqlite3_column_text() of a cell that is no text
    toBlob: Cell -> Bytes,         // sqlite3_column_blob() of a number
    toDate: Cell -> Double,
    toDateTime: Cell -> Double,
    toTime: Cell -> Double)

  /** Conversions to double that are exact on 32-bit integers. */
  type Engine = co: Coercions | forall v: int32 :: co.round(v) == v as real
    witness Coercions(
              (v: int64) => v as real, (_: Cell) => 0, (_: Cell) => 0.0, (_: Cell) => [], (_: Cell) => [],
              (_: Cell) => NaReal, (_: Cell) => NaReal, (_: Cell) => NaReal)

  /** A result column: its declared type, the extended-types option and the engine. */
  datatype Source = Source(decl: DataType, extended: bool, co: Engine) {
    /** What datatype_from_decltype() can return. */
    predicate Valid() {
      || decl in {Bool, Int, Real, String, Blob}
      || (extended && decl in {Date, DateTime, Time})
    }
  }

  // ---------------------------------------------------------------- declared types

  /** boost::iequals(): the same in lower case. */
  predicate EqualsIgnoringCase(a: Bytes, b: Bytes) {
    Affinity.Lower(a) == Affinity.Lower(b)
  }

  lemma EqualsIsSameText(a: Bytes, b: Bytes)
    ensures EqualsIgnoringCase(a, b) <==> SameText(a, b)
  {
    if EqualsIgnoringCase(a, b) {
      assert forall i :: 0 <= i < |a| ==> Affinity.Lower(a)[i] == Affinity.Lower(b)[i];
    }
  }

  const DATETIME: Bytes := Ascii("datetime")
  const TIMESTAMP: Bytes := Ascii("timestamp")
  const DATE: Bytes := Ascii("date")
  const TIME: Bytes := Ascii("time")

  method DataTypeFromDeclType(declType: Option<Bytes>, extended: bool) returns (dt: DataType)
    requires declType.Some? ==> NUL !in declType.value
    ensures forall co: Engine :: Source(dt, extended, co).Valid()
    ensures dt == Bool <==> declType.None?
    ensures dt == DateTime <==>
            extended && declType.Some? &&
            (SameText(declType.value, Ascii("datetime")) || SameText(declType.value, Ascii("timestamp")))
    ensures dt == Date <==> extended && declType.Some? && SameText(declType.value, Ascii("date"))
    ensures dt == Time <==> extended && declType.Some? && SameText(declType.value, Ascii("time"))
    ensures declType.Some? && dt !in {Date, DateTime, Time} ==>
              dt == match Affinity.TableAffinity(declType.value)
                    case AffInteger => Int
                    case AffNumeric => Real
                    case AffReal => Real
                    case AffText => String
                    case AffBlob => Blob
  {
    if declType.None? {
      return Bool;
    }
    EqualsIsSameText(declType.value, DATETIME);
    EqualsIsSameText(declType.value, TIMESTAMP);
    EqualsIsSameText(declType.value, DATE);
    EqualsIsSameText(declType.value, TIME);
    assert DATE[0] == 100 && TIME[0] == 116;
    if extended {
      if EqualsIgnoringCase(declType.value, DATETIME) || EqualsIgnoringCase(declType.value, TIMESTAMP) {
        return DateTime;
      } else if EqualsIgnoringCase(declType.value, DATE) {
        return Date;
      } else if EqualsIgnoringCase(declType.value, TIME) {
        return Time;
      }
    }
    var affinity := Affinity.ScanAffinity(declType);
    match affinity
    case AffInteger => return Int;
    case AffNumeric => return Real;
    case AffReal => return Real;
    case AffText => return String;
    case AffBlob => return Blob;
  }

  // ---------------------------------------------------------------- classification of values

  function Needs64Bit(v: int64): bool {
    v < -0x8000_0000 || v > 0x7fff_ffff
  }

  /** get_data_type(): the type of the current cell. */
  function ItemType(src: Source, c: Cell): (dt: DataType)
    requires src.Valid()
    ensures dt == Unknown ==> c.Null?
    ensures dt !in {Bool, DateTimeTz}
    ensures c.Null? && dt != Unknown ==> dt == src.decl
  {
    if src.extended && src.decl in {Date, DateTime, Time} then src.decl
    else match c
      case Integer(v) => if Needs64Bit(v) then Int64 else Int
      case Float(_) => Real
      case Text(_) => String
      case Binary(_) => Blob
      case Null => Unknown
  }

  /** The classification written out; a declared date or time type comes before it. */
  lemma ItemTypeMeans(src: Source, c: Cell)
    requires src.Valid()
    ensures if src.extended && src.decl in {Date, DateTime, Time} then ItemType(src, c) == src.decl
            else
              && (ItemType(src, c) == Int <==> c.Integer? && -2147483648 <= c.v <= 2147483647)
              && (ItemType(src, c) == Int64 <==> c.Integer? && !(-2147483648 <= c.v <= 2147483647))
              && (ItemType(src, c) == Real <==> c.Float?)
              && (ItemType(src, c) == String <==> c.Text?)
              && (ItemType(src, c) == Blob <==> c.Binary?)
              && (ItemType(src, c) == Unknown <==> c.Null?)
  {}

  // ---------------------------------------------------------------- fetching

  /** Truncation of a 64-bit value to a signed 32-bit one. */
  function Low32(v: int64): (r: int32)
    ensures (v as int - r as int) % 0x1_0000_0000 == 0
  {
    var low := v % 0x1_0000_0000;
    if low < 0x8000_0000 then low else low - 0x1_0000_0000
  }

  function FetchInt64(co: Engine, c: Cell): int64 {
    if c.Integer? then c.v else co.toInt64(c)
  }

  function FetchReal(co: Engine, c: Cell): real {
    match c
    case Float(r) => r
    case Integer(v) => co.round(v)
    case _ => co.toReal(c)
  }

  /** The R string is made from a C string, so it ends at the first NUL. */
  function FetchString(co: Engine, c: Cell): Bytes {
    CString(if c.Text? then c.t else co.toText(c))
  }

  function FetchBlob(co: Engine, c: Cell): Bytes {
    match c
    case Binary(b) => b
    case Text(t) => t
    case _ => co.toBlob(c)
  }

  /** fetch_value(): a non-NULL cell, read as type `dt`. */
  function Fetch(co: Engine, dt: DataType, c: Cell): Slot
    requires dt != Unknown
  {
    match dt
    case Bool => LogicalSlot(0)
    case Int => IntSlot(Low32(FetchInt64(co, c)))
    case Int64 => Int64Slot(FetchInt64(co, c))
    case Real => RealSlot(Num(FetchReal(co, c)))
    case String => StringSlot(Some(FetchString(co, c)))
    case Blob => ListSlot(Some(FetchBlob(co, c)))
    case Date => RealSlot(co.toDate(c))
    case DateTime => RealSlot(co.toDateTime(c))
    case DateTimeTz => RealSlot(Num(0.0))
    case Time => RealSlot(co.toTime(c))
  }

  /** fill_default_value(): the missing value of a type. */
  function NA(dt: DataType): Slot
    requires dt != Unknown
  {
    match dt
    case Bool => LogicalSlot(NA_INTEGER)
    case Int => IntSlot(NA_INTEGER)
    case Int64 => Int64Slot(NA_INTEGER64)
    case Real | Date | DateTime | DateTimeTz | Time => RealSlot(NaReal)
    case String => StringSlot(None)
    case Blob => ListSlot(None)
  }

  predicate IsNA(s: Slot) {
    match s
    case LogicalSlot(l) => l == NA_INTEGER
    case IntSlot(i) => i == NA_INTEGER
    case Int64Slot(i) => i == NA_INTEGER64
    case RealSlot(d) => d == NaReal
    case StringSlot(t) => t == None
    case ListSlot(b) => b == None
  }

  /** Whether an R vector of type `dt` holds such slots. */
  predicate HasType(s: Slot, dt: DataType) {
    match dt
    case Unknown => false
    case Bool => s.LogicalSlot?
    case Int => s.IntSlot?
    case Int64 => s.Int64Slot?
    case Real | Date | DateTime | DateTimeTz | Time => s.RealSlot?
    case String => s.StringSlot?
    case Blob => s.ListSlot?
  }

  /** The type pairs that copy_value() defines: the same type, or an integer widened. */
  predicate Copyable(s: Slot, dt: DataType) {
    HasType(s, dt) || (s.IntSlot? && dt in {Int64, Real})
  }

  /** copy_value(): a stored slot, widened to the type of the final vector. */
  function Widen(s: Slot, dt: DataType): (r: Slot)
    requires Copyable(s, dt)
    ensures HasType(r, dt)
    ensures IsNA(s) ==> r == NA(dt)
    ensures dt == Int64 || dt == Real ==> (IsNA(r) <==> IsNA(s))
  {
    if s.IntSlot? && dt == Int64 then Int64Slot(if s.i == NA_INTEGER then NA_INTEGER64 else s.i)
    else if s.IntSlot? && dt == Real then RealSlot(if s.i == NA_INTEGER then NaReal else Num(s.i as real))
    else s
  }

  lemma FetchHasType(co: Engine, dt: DataType, c: Cell)
    requires dt != Unknown
    ensures HasType(Fetch(co, dt, c), dt) && HasType(NA(dt), dt) && IsNA(NA(dt))
  {}

  /** Reading as a 32-bit integer is exact if and only if 64 bits are not needed. */
  lemma Low32Identity(v: int64)
    ensures Low32(v) == v <==> !Needs64Bit(v)
  {}

  /** The values that R reads as missing, and that is what a missing value is in each type. */
  lemma MissingValues(s: Slot, dt: DataType)
    requires dt != Unknown
    ensures IsNA(s) <==>
            || s in {LogicalSlot(-2147483648), IntSlot(-2147483648), Int64Slot(-9223372036854775808)}
            || s in {RealSlot(NaReal), StringSlot(None), ListSlot(None)}
    ensures HasType(NA(dt), dt) && IsNA(NA(dt))
  {}

  /** A slot that an R user reads as exactly the value of the cell. */
  predicate ReadsAs(s: Slot, c: Cell) {
    match (s, c)
    case (IntSlot(i), Integer(v)) => i != NA_INTEGER && i == v
    case (Int64Slot(i), Integer(v)) => i != NA_INTEGER64 && i == v
    case (RealSlot(Num(r)), Integer(v)) => r == v as real && !Needs64Bit(v)
    case (RealSlot(Num(r)), Float(x)) => r == x
    case (StringSlot(Some(t)), Text(u)) => t == u
    case (ListSlot(Some(b)), Binary(d)) => b == d
    case (_, Null) => IsNA(s)
    case _ => false
  }
}
