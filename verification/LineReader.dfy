/** The growing-buffer line reader of the file importer (src/import-file.c, lines 171-222). */
module LineReader {
  import opened Bytes

  const INITIAL_CAPACITY: nat := 1024

  /** A byte as the value of a signed C `char`. */
  function SignedChar(b: byte): int {
    if b < 128 then b else b - 256
  }

  /**
   The text read so far ends with the end-of-line string.  The reader first compares the
   byte read, a value from 0 to 255, with the last `char` of `eol`, a signed value.
   */
  predicate EndsWithEol(s: Bytes, eol: Bytes)
    requires eol != []
  {
    && |eol| <= |s|
    && s[|s| - 1] == SignedChar(eol[|eol| - 1])
    && s[|s| - |eol|..] == eol
  }

  /** Length of the shortest prefix that ends with `eol`, looking from `from` on. */
  function EolFrom(s: Bytes, eol: Bytes, from: nat): (r: EolSearch)
    requires eol != [] && from <= |s|
    ensures r.Found? ==> from <= r.end <= |s| && EndsWithEol(s[..r.end], eol)
    decreases |s| - from
  {
    if EndsWithEol(s[..from], eol) then Found(from)
    else if from == |s| then NotFound
    else EolFrom(s, eol, from + 1)
  }

  lemma EolFromStep(s: Bytes, eol: Bytes, from: nat)
    requires eol != [] && from < |s| && !EndsWithEol(s[..from], eol)
    ensures EolFrom(s, eol, from) == EolFrom(s, eol, from + 1)
  {}

  /** It is the shortest such prefix. */
  lemma {:induction false} EolFromFirst(s: Bytes, eol: Bytes, from: nat, k: nat)
    requires eol != [] && from <= k <= |s| && EndsWithEol(s[..k], eol)
    ensures EolFrom(s, eol, from).Found? && EolFrom(s, eol, from).end <= k
    decreases |s| - from
  {
    if !EndsWithEol(s[..from], eol) {
      EolFromFirst(s, eol, from + 1, k);
    }
  }

  datatype EolSearch = NotFound | Found(end: nat)

  /** What one call yields: a line, the NULL that ends the import, or a buffer without NUL. */
  datatype LineResult = NoLine | Line(text: Bytes) | Unterminated(text: Bytes)

  function AsLine(text: Bytes): LineResult {
    if text == [] then NoLine else Line(text)
  }

  /**
   The result for the bytes still unread.  Without an end of line the buffer is not
   terminated unless the file itself holds a NUL.
   */
  function NextLine(s: Bytes, eol: Bytes): (r: LineResult)
    requires eol != []
    ensures r.Line? ==> s != [] && r.text != [] && NUL !in r.text
  {
    match EolFrom(s, eol, 0)
    case Found(k) => AsLine(CString(s[..k - |eol|]))
    case NotFound =>
      if s == [] then NoLine
      else if NUL in s then AsLine(CString(s))
      else Unterminated(s)
  }

  function Consumed(s: Bytes, eol: Bytes): (n: nat)
    requires eol != []
    ensures n <= |s| && (s != [] ==> n > 0)
  {
    match EolFrom(s, eol, 0)
    case Found(k) => k
    case NotFound => |s|
  }

  /** The buffer holds the result as a C string; NULL stands for no line. */
  ghost predicate Holds(buf: array?<byte>, r: LineResult)
    reads buf
  {
    match r
    case NoLine => buf == null
    case Line(t) => buf != null && |t| < buf.Length && t <= buf[..] && buf[|t|] == NUL
    case Unterminated(t) => buf != null && t <= buf[..]
  }

  /** The C string in a buffer that starts with `text` and, if `ended`, a NUL. */
  lemma TextInBuffer(text: Bytes, buffer: Bytes, ended: bool)
    requires text <= buffer && (ended ==> |text| < |buffer| && buffer[|text|] == NUL)
    ensures ended || NUL in text ==>
              var t := CString(text);
              t <= buffer && |t| < |buffer| && buffer[|t|] == NUL && (t == [] <==> buffer[0] == NUL)
    ensures !ended && NUL !in text ==> text == [] || buffer[0] != NUL
  {
    if ended || NUL in text {
      CStringCut(text, buffer);
    } else if text != [] {
      assert buffer[0] == text[0];
    }
  }

  class FileStream {
    const bytes: Bytes
    var pos: nat

    ghost predicate Valid()
      reads this
    {
      pos <= |bytes|
    }

    ghost function Unread(): Bytes
      requires Valid()
      reads this
    {
      bytes[pos..]
    }

    constructor (contents: Bytes)
      ensures Valid() && Unread() == contents
    {
      bytes, pos := contents, 0;
    }

    /**
     Whether the byte just stored completes an end of line: the last byte first, then the
     bytes before it.  The comparison is guarded against texts shorter than `eol`.
     */
    static method AtEol(buf: array<byte>, i: nat, eol: Bytes) returns (found: bool)
      requires eol != [] && 0 < i <= buf.Length
      ensures found <==> EndsWithEol(buf[..i], eol)
    {
      var neol := |eol|;
      if buf[i - 1] != SignedChar(eol[neol - 1]) || i < neol {
        return false;
      }
      ghost var tail := buf[i - neol..i];
      assert buf[..i][i - neol..] == tail;
      found := true;
      var j := neol - 1;
      while j > 0
        invariant 0 <= j < neol
        invariant tail[..neol - 1 - j] == eol[..neol - 1 - j]
      {
        assert buf[(i - 1) - j] == tail[neol - 1 - j];
        if buf[(i - 1) - j] != eol[neol - 1 - j] {
          return false;
        }
        j := j - 1;
      }
      assert tail[neol - 1] == eol[neol - 1];
    }

    /** Room for one more byte: a full buffer is doubled, and its bytes survive. */
    static method EnsureRoom(line: array<byte>, i: nat) returns (larger: array<byte>)
      requires i <= line.Length && INITIAL_CAPACITY <= line.Length
      ensures larger == line || (fresh(larger) && larger.Length == 2 * i)
      ensures i < larger.Length && INITIAL_CAPACITY <= larger.Length
      ensures larger[..i] == line[..i]
    {
      larger := line;
      if i == line.Length {
        larger := new byte[2 * i];
        forall k | 0 <= k < i {
          larger[k] := line[k];
        }
      }
    }

    /** Takes the next byte into the buffer and says whether it completes an end of line. */
    method TakeByte(line: array<byte>, i: nat, eol: Bytes, ghost s: Bytes) returns (foundEol: bool)
      requires pos < |bytes| && i < line.Length && i < |s| && eol != []
      requires bytes[pos] == s[i] && line[..i] == s[..i]
      modifies `pos, line
      ensures pos == old(pos) + 1 && line[..i + 1] == s[..i + 1]
      ensures foundEol <==> EndsWithEol(s[..i + 1], eol)
    {
      line[i] := bytes[pos];
      pos := pos + 1;
      assert line[..i + 1] == line[..i] + [s[i]] == s[..i + 1];
      foundEol := AtEol(line, i + 1, eol);
    }

    /**
     The reading loop.  The buffer starts with 1024 bytes and doubles; all writes fall
     inside it, earlier bytes survive, and it takes at most twice the bytes read.
     */
    method ReadBytes(eol: Bytes) returns (line: array<byte>, i: nat, foundEol: bool)
      requires Valid() && eol != []
      modifies this
      ensures Valid() && fresh(line) && pos == old(pos) + i && i <= line.Length
      ensures i <= |old(Unread())| && line[..i] == old(Unread())[..i]
      ensures EolFrom(old(Unread()), eol, 0) == if foundEol then Found(i) else NotFound
      ensures !foundEol ==> i == |old(Unread())|
      ensures line.Length <= 1024 || line.Length <= 2 * i
    {
      ghost var s, start := Unread(), pos;
      ghost var target := EolFrom(s, eol, 0);
      i := 0;
      line := new byte[INITIAL_CAPACITY];
      foundEol := false;
      while !foundEol
        invariant pos == start + i && i <= |s|
        invariant fresh(line) && i <= line.Length && INITIAL_CAPACITY <= line.Length
        invariant line.Length == INITIAL_CAPACITY || line.Length <= 2 * i
        invariant line[..i] == s[..i]
        invariant foundEol <==> EndsWithEol(s[..i], eol)
        invariant EolFrom(s, eol, i) == target
        decreases |s| - i, !foundEol
      {
        line := EnsureRoom(line, i);
        if pos == |bytes| {
          break;
        }
        EolFromStep(s, eol, i);
        foundEol := TakeByte(line, i, eol, s);
        i := i + 1;
      }
    }

    /**
     Reads one line into a fresh buffer; NULL at the end of the file and for an empty line.
     `unterminated` is no part of the C code: it marks a buffer in which no NUL was stored.
     */
    method GetLine(eol: Bytes) returns (buf: array?<byte>, unterminated: bool)
      requires Valid() && eol != []
      modifies this
      ensures Valid() && (buf != null ==> fresh(buf))
      ensures Holds(buf, NextLine(old(Unread()), eol))
      ensures unterminated <==> NextLine(old(Unread()), eol).Unterminated?
      ensures pos == old(pos) + Consumed(old(Unread()), eol)
      ensures buf != null ==> buf.Length <= 1024 || buf.Length <= 2 * (pos - old(pos))
    {
      ghost var s := Unread();
      var line, i, foundEol := ReadBytes(eol);
      ghost var m := if foundEol then i - |eol| else i;
      assert line[..m] == s[..i][..m] == s[..m];
      assert !foundEol ==> s[..m] == s;
      unterminated := !foundEol && i > 0 && NUL !in line[..i];
      if foundEol {
        line[i - |eol|] := NUL;
      }
      TextInBuffer(s[..m], line[..], foundEol);
      if i == 0 || line[0] == NUL {
        buf := null;
      } else {
        buf := line;
      }
    }
  }
}
