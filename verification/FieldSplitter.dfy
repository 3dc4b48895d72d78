/** The in-place field splitter of the file importer (src/import-file.c, lines 107-139). */
module FieldSplitter {
  import opened Bytes

  const LF: byte := 10
  const CR: byte := 13
  const BACKSLASH: byte := 92
  const CAPITAL_N: byte := 78

  predicate IsBreak(b: byte) {
    b == LF || b == CR
  }

  /**
   The greedy left-to-right split: separators are matched without overlap, and scanning
   stops at the first line break, so that the last field keeps everything from there on.
   */
  function Split(s: Bytes, sep: Bytes): (fs: seq<Bytes>)
    requires sep != []
    ensures fs != []
  {
    if s == [] || IsBreak(s[0]) then [s]
    else if sep <= s then [[]] + Split(s[|sep|..], sep)
    else Prepend([s[0]], Split(s[1..], sep))
  }

  function Prepend(x: Bytes, fs: seq<Bytes>): seq<Bytes>
    requires fs != []
  {
    [x + fs[0]] + fs[1..]
  }

  function Join(fs: seq<Bytes>, sep: Bytes): Bytes
    requires fs != []
  {
    if |fs| == 1 then fs[0] else fs[0] + sep + Join(fs[1..], sep)
  }

  lemma JoinFirst(f: Bytes, fs: seq<Bytes>, sep: Bytes)
    requires fs != []
    ensures Join([f] + fs, sep) == f + sep + Join(fs, sep)
  {
    assert ([f] + fs)[1..] == fs;
  }

  lemma JoinPrepend(x: Bytes, fs: seq<Bytes>, sep: Bytes)
    requires fs != []
    ensures Join(Prepend(x, fs), sep) == x + Join(fs, sep)
  {
    assert Prepend(x, fs)[1..] == fs[1..];
    if |fs| > 1 {
      assert x + (fs[0] + sep + Join(fs[1..], sep)) == x + fs[0] + sep + Join(fs[1..], sep);
    }
  }

  lemma {:induction false} JoinSplit(s: Bytes, sep: Bytes)
    requires sep != []
    ensures Join(Split(s, sep), sep) == s
  {
    if s == [] || IsBreak(s[0]) {
    } else if sep <= s {
      JoinSplit(s[|sep|..], sep);
      JoinFirst([], Split(s[|sep|..], sep), sep);
      assert s == [] + sep + s[|sep|..];
    } else {
      JoinSplit(s[1..], sep);
      JoinPrepend([s[0]], Split(s[1..], sep), sep);
      assert s == [s[0]] + s[1..];
    }
  }

  /** A field followed by a separator: the scan passes over it and stops at its end. */
  predicate Passes(f: Bytes, sep: Bytes)
    requires sep != []
  {
    if f == [] then !IsBreak(sep[0])
    else !IsBreak(f[0]) && !(sep <= f + sep) && Passes(f[1..], sep)
  }

  /** A last field: no separator begins before its first line break. */
  predicate Closes(f: Bytes, sep: Bytes) {
    f == [] || IsBreak(f[0]) || (!(sep <= f) && Closes(f[1..], sep))
  }

  function FirstBreak(f: Bytes): (n: nat)
    ensures n <= |f| && (n < |f| ==> f[n] in {10, 13})
    ensures forall p :: 0 <= p < n ==> f[p] !in {10, 13}
  {
    if f == [] || IsBreak(f[0]) then 0 else 1 + FirstBreak(f[1..])
  }

  /** The same conditions position by position, without a scan. */
  lemma {:induction false} PassesMeans(f: Bytes, sep: Bytes)
    requires sep != []
    ensures Passes(f, sep) <==>
            sep[0] !in {10, 13} && forall p :: 0 <= p < |f| ==> f[p] !in {10, 13} && !(sep <= f[p..] + sep)
  {
    if f != [] {
      PassesMeans(f[1..], sep);
      assert f[0..] == f;
      if Passes(f, sep) {
        forall p | 0 <= p < |f| ensures !IsBreak(f[p]) && !(sep <= f[p..] + sep) {
          if p > 0 { assert f[1..][p - 1..] == f[p..] && f[1..][p - 1] == f[p]; }
        }
      } else if Passes(f[1..], sep) {
        assert IsBreak(f[0]) || sep <= f[0..] + sep;
      } else if !IsBreak(sep[0]) {
        var p :| 0 <= p < |f[1..]| && (IsBreak(f[1..][p]) || sep <= f[1..][p..] + sep);
        assert f[1..][p..] == f[p + 1..] && f[1..][p] == f[p + 1];
      }
    }
  }

  lemma {:induction false} ClosesMeans(f: Bytes, sep: Bytes)
    requires sep != []
    ensures Closes(f, sep) <==> forall p :: 0 <= p < FirstBreak(f) ==> !(sep <= f[p..])
  {
    if f != [] && !IsBreak(f[0]) {
      ClosesMeans(f[1..], sep);
      assert f[0..] == f;
      var n := FirstBreak(f[1..]);
      if Closes(f, sep) {
        forall p | 0 <= p < n + 1 ensures !(sep <= f[p..]) {
          if p > 0 { assert f[1..][p - 1..] == f[p..]; }
        }
      } else if !(sep <= f) {
        var p :| 0 <= p < n && sep <= f[1..][p..];
        assert f[1..][p..] == f[p + 1..];
      }
    }
  }

  predicate Clean(fs: seq<Bytes>, sep: Bytes)
    requires sep != [] && fs != []
  {
    if |fs| == 1 then Closes(fs[0], sep) else Passes(fs[0], sep) && Clean(fs[1..], sep)
  }

  lemma PrependNothing(fs: seq<Bytes>)
    requires fs != []
    ensures Prepend([], fs) == fs
  {
    assert [] + fs[0] == fs[0];
  }

  lemma PrependEnded(x: Bytes, fs: seq<Bytes>)
    ensures Prepend(x, [[]] + fs) == [x] + fs
  {
    assert x + [] == x;
    assert ([[]] + fs)[1..] == fs;
  }

  lemma PrependTwice(x: Bytes, y: Bytes, fs: seq<Bytes>)
    requires fs != []
    ensures Prepend(x + y, fs) == Prepend(x, Prepend(y, fs))
  {
    assert x + (y + fs[0]) == x + y + fs[0];
  }

  lemma {:induction false} SplitClosing(f: Bytes, sep: Bytes)
    requires sep != []
    ensures |Split(f, sep)| == 1 <==> Closes(f, sep)
    ensures Closes(f, sep) ==> Split(f, sep) == [f]
  {
    if f != [] && !IsBreak(f[0]) && !(sep <= f) {
      SplitClosing(f[1..], sep);
      assert f == [f[0]] + f[1..];
    }
  }

  lemma {:induction false} SplitPassing(f: Bytes, sep: Bytes, rest: Bytes)
    requires sep != [] && Passes(f, sep)
    ensures Split(f + sep + rest, sep) == [f] + Split(rest, sep)
  {
    var s := f + sep + rest;
    if f == [] {
      assert s == sep + rest && s[0] == sep[0] && s[|sep|..] == rest;
    } else {
      SplitPassing(f[1..], sep, rest);
      assert s[1..] == f[1..] + sep + rest && s[0] == f[0];
      assert s[..|sep|] == (f + sep)[..|sep|];
      assert f == [f[0]] + f[1..];
    }
  }

  /** Whatever a split returns starts with a field that passes, then the split of the rest. */
  lemma {:induction false} SplitHead(s: Bytes, sep: Bytes) returns (rest: Bytes)
    requires sep != [] && |Split(s, sep)| >= 2
    ensures Passes(Split(s, sep)[0], sep) && s == Split(s, sep)[0] + sep + rest
    ensures Split(s, sep)[1..] == Split(rest, sep)
  {
    var f := Split(s, sep)[0];
    if sep <= s {
      rest := s[|sep|..];
      assert s == [] + sep + rest;
    } else {
      rest := SplitHead(s[1..], sep);
      var g := Split(s[1..], sep)[0];
      assert f == [s[0]] + g && f[1..] == g;
      assert s == [s[0]] + s[1..];
      assert s == f + sep + rest;
      assert (f + sep)[..|sep|] == s[..|sep|];
    }
  }

  lemma {:induction false} SplitIsClean(s: Bytes, sep: Bytes)
    requires sep != []
    ensures Clean(Split(s, sep), sep)
    decreases |s|
  {
    var fs := Split(s, sep);
    SplitClosing(s, sep);
    if |fs| > 1 {
      var rest := SplitHead(s, sep);
      SplitIsClean(rest, sep);
    }
  }

  /** Splitting inverts joining exactly for clean fields. */
  lemma {:induction false} SplitJoin(fs: seq<Bytes>, sep: Bytes)
    requires sep != [] && fs != []
    ensures Split(Join(fs, sep), sep) == fs <==> Clean(fs, sep)
  {
    if Split(Join(fs, sep), sep) == fs {
      SplitIsClean(Join(fs, sep), sep);
    }
    if Clean(fs, sep) {
      if |fs| == 1 {
        SplitClosing(fs[0], sep);
      } else {
        SplitJoin(fs[1..], sep);
        SplitPassing(fs[0], sep, Join(fs[1..], sep));
      }
    }
  }

  // ---------------------------------------------------------------- NULL markers

  datatype Field = NullField | TextField(text: Bytes)

  const NULL_MARK: Bytes := Ascii("\\N")

  /** A field is bound as NULL when it starts with backslash and N, whatever follows. */
  function Bind(f: Bytes): (b: Field)
    ensures b == NullField <==> NULL_MARK <= f
    ensures b != NullField ==> b == TextField(f)
  {
    if |f| >= 2 && f[0] == BACKSLASH && f[1] == CAPITAL_N then NullField else TextField(f)
  }

  function Encode(f: Field): Bytes {
    match f case NullField => NULL_MARK case TextField(t) => t
  }

  function BindAll(fs: seq<Bytes>): seq<Field> {
    seq(|fs|, i requires 0 <= i < |fs| => Bind(fs[i]))
  }

  function EncodeAll(fs: seq<Field>): seq<Bytes> {
    seq(|fs|, i requires 0 <= i < |fs| => Encode(fs[i]))
  }

  /** A row written with `\N` for NULL is read back unless a text itself starts with `\N`. */
  lemma RowRoundTrip(row: seq<Field>, sep: Bytes)
    requires row != [] && sep != [] && Clean(EncodeAll(row), sep)
    ensures BindAll(Split(Join(EncodeAll(row), sep), sep)) == row <==>
            forall i :: 0 <= i < |row| && row[i].TextField? ==> !(NULL_MARK <= row[i].text)
  {
    SplitJoin(EncodeAll(row), sep);
    var back := BindAll(EncodeAll(row));
    forall i | 0 <= i < |row| ensures back[i] == row[i] <==> row[i].NullField? || !(NULL_MARK <= row[i].text) {}
    if back == row {
      forall i | 0 <= i < |row| && row[i].TextField? ensures !(NULL_MARK <= row[i].text) {
        assert back[i] == row[i];
      }
    }
  }

  // ---------------------------------------------------------------- the loop

  /** The separator stands at `p`, within the first `n` bytes. */
  predicate SeparatorAt(z: seq<byte>, n: nat, p: nat, sep: Bytes)
    requires p <= n <= |z|
  {
    p + |sep| <= n && z[p..p + |sep|] == sep
  }

  /** Field `f` stands at `start`, closed by a NUL that lies before `limit`. */
  ghost predicate FieldAt(z: Bytes, start: nat, f: Bytes, limit: nat) {
    start + |f| < limit <= |z| && f <= z[start..] && z[start + |f|] == NUL && NUL !in f
  }

  /** All finished fields, each where its start was noted. */
  ghost predicate FieldsAt(z: Bytes, cols: seq<nat>, done: seq<Bytes>, limit: nat) {
    |done| <= |cols| && forall k :: 0 <= k < |done| ==> FieldAt(z, cols[k], done[k], limit)
  }

  /** The buffer after `done` fields were finished: from the next start on it is still the line. */
  ghost predicate Buffered(line: Bytes, z: Bytes, cols: seq<nat>, done: seq<Bytes>, nCol: nat) {
    && |line| < |z| && |done| < nCol <= |cols| && cols[|done|] <= |line|
    && z[cols[|done|]..|line|] == line[cols[|done|]..]
    && FieldsAt(z, cols, done, cols[|done|])
  }

  /** The greedy split when `done` fields are finished, one began at `start`, and the scan is at `p`. */
  ghost predicate Pending(line: Bytes, sep: Bytes, done: seq<Bytes>, start: nat, p: nat)
    requires sep != []
  {
    start <= p <= |line| && Split(line, sep) == done + Prepend(line[start..p], Split(line[p..], sep))
  }

  lemma PendingStart(line: Bytes, sep: Bytes)
    requires sep != []
    ensures Pending(line, sep, [], 0, 0)
  {
    assert line[0..0] == [] && line[0..] == line;
    PrependNothing(Split(line, sep));
  }

  /** Passing over an ordinary byte. */
  lemma PendingByte(line: Bytes, sep: Bytes, done: seq<Bytes>, start: nat, p: nat)
    requires sep != [] && Pending(line, sep, done, start, p)
    requires p < |line| && !IsBreak(line[p]) && !(sep <= line[p..])
    ensures Pending(line, sep, done, start, p + 1)
  {
    assert line[p..][1..] == line[p + 1..];
    assert line[start..p + 1] == line[start..p] + [line[p]];
    PrependTwice(line[start..p], [line[p]], Split(line[p + 1..], sep));
  }

  lemma Regroup(done: seq<Bytes>, f: Bytes, tail: seq<Bytes>)
    requires tail != []
    ensures done + Prepend(f, [[]] + tail) == done + [f] + Prepend([], tail)
    ensures |done + Prepend(f, [[]] + tail)| >= |done| + 2
  {
    PrependEnded(f, tail);
    PrependNothing(tail);
    assert done + ([f] + tail) == done + [f] + tail;
  }

  lemma SplitAtSeparator(line: Bytes, sep: Bytes, p: nat)
    requires sep != [] && p < |line| && !IsBreak(line[p]) && sep <= line[p..]
    ensures p + |sep| <= |line| && Split(line[p..], sep) == [[]] + Split(line[p + |sep|..], sep)
  {
    assert line[p..][|sep|..] == line[p + |sep|..];
  }

  /** A separator ends the field read so far and begins the next one. */
  lemma PendingSeparator(line: Bytes, sep: Bytes, done: seq<Bytes>, start: nat, p: nat)
    requires sep != [] && Pending(line, sep, done, start, p)
    requires p < |line| && !IsBreak(line[p]) && sep <= line[p..]
    ensures Pending(line, sep, done + [line[start..p]], p + |sep|, p + |sep|)
    ensures |Split(line, sep)| >= |done| + 2
  {
    hide Split, Prepend, IsBreak;
    SplitAtSeparator(line, sep, p);
    var next := p + |sep|;
    assert line[next..next] == [];
    Regroup(done, line[start..p], Split(line[next..], sep));
  }

  /** At the end of the scan everything behind the last field start is the last field. */
  lemma PendingEnd(line: Bytes, sep: Bytes, done: seq<Bytes>, start: nat, p: nat)
    requires sep != [] && Pending(line, sep, done, start, p) && (p == |line| || IsBreak(line[p]))
    ensures Split(line, sep) == done + [line[start..]]
  {
    assert line[start..p] + line[p..] == line[start..];
  }

  /** The finished field is in the buffer, and the write at its end leaves the rest alone. */
  lemma SliceAfterWrite(line: Bytes, z: Bytes, start: nat, p: nat, next: nat)
    requires start <= p < next <= |line| < |z| && z[start..|line|] == line[start..]
    ensures line[start..p] <= z[start..] && z[p := NUL][next..|line|] == line[next..]
  {
    var w := z[start..|line|];
    assert z[start..][..p - start] == z[start..p] == w[..p - start];
    assert line[start..p] == line[start..][..p - start];
    assert z[p := NUL][next..|line|] == w[next - start..] == line[next..];
  }

  /** Writing the NUL and noting the next start leaves earlier fields readable and completes one more. */
  lemma FieldsStay(z: Bytes, cols: seq<nat>, done: seq<Bytes>, f: Bytes, p: nat, next: nat)
    requires |done| + 1 < |cols| && cols[|done|] + |f| == p < next <= |z| && NUL !in f
    requires f <= z[cols[|done|]..]
    requires FieldsAt(z, cols, done, cols[|done|])
    ensures FieldsAt(z[p := NUL], cols[|done| + 1 := next], done + [f], next)
  {
    var z', cols', done' := z[p := NUL], cols[|done| + 1 := next], done + [f];
    forall k | 0 <= k <= |done| ensures FieldAt(z', cols'[k], done'[k], next) {
      if k < |done| {
        assert FieldAt(z, cols[k], done[k], cols[|done|]);
      }
      assert done'[k] <= z'[cols[k]..];
    }
  }

  /** Ending a field at `p` and noting the next start keeps the buffer in order. */
  lemma BufferStep(line: Bytes, z: Bytes, cols: seq<nat>, done: seq<Bytes>, nCol: nat, p: nat, next: nat)
    requires NUL !in line && Buffered(line, z, cols, done, nCol)
    requires |done| + 1 < nCol && cols[|done|] <= p < next <= |line|
    ensures Buffered(line, z[p := NUL], cols[|done| + 1 := next], done + [line[cols[|done|]..p]], nCol)
  {
    hide FieldsAt;
    SliceAfterWrite(line, z, cols[|done|], p, next);
    FieldsStay(z, cols, done, line[cols[|done|]..p], p, next);
  }

  /** The C strings that start at the noted places are these fields. */
  ghost predicate ReadsAs(z: Bytes, cols: seq<nat>, fs: seq<Bytes>) {
    |fs| <= |cols| && forall k :: 0 <= k < |fs| ==> cols[k] <= |z| && CString(z[cols[k]..]) == fs[k]
  }

  lemma DoneField(z: Bytes, start: nat, f: Bytes, limit: nat)
    requires FieldAt(z, start, f, limit)
    ensures start <= |z| && CString(z[start..]) == f
  {
    CStringOfPrefix(f, z[start..]);
  }

  lemma LastField(line: Bytes, z: Bytes, start: nat)
    requires start <= |line| < |z| && z[|line|] == NUL && NUL !in line && z[start..|line|] == line[start..]
    ensures CString(z[start..]) == line[start..]
  {
    assert z[start..][..|line| - start] == line[start..];
    CStringOfPrefix(line[start..], z[start..]);
  }

  /** At the end of the scan the fields can be read off as C strings. */
  lemma FieldsReadable(line: Bytes, z: Bytes, cols: seq<nat>, done: seq<Bytes>, nCol: nat)
    requires NUL !in line && Buffered(line, z, cols, done, nCol) && z[|line|] == NUL
    ensures ReadsAs(z, cols, done + [line[cols[|done|]..]])
  {
    hide CString, FieldAt;
    LastField(line, z, cols[|done|]);
    forall k | 0 <= k < |done| ensures cols[k] <= |z| && CString(z[cols[k]..]) == done[k] {
      DoneField(z, cols[k], done[k], cols[|done|]);
    }
  }

  /** Buffer, field starts and number of separators when the loop stands at `p`. */
  datatype Scan = Scan(z: Bytes, cols: seq<nat>, p: nat, i: nat)

  /** One iteration of the loop; `n` is the length of the line. */
  function Step(s: Scan, n: nat, sep: Bytes, nCol: nat): (t: Scan)
    requires s.p < n < |s.z| && sep != [] && |s.cols| == nCol + 1
    ensures s.p < t.p <= n && |t.z| == |s.z| && |t.cols| == |s.cols|
  {
    if !SeparatorAt(s.z, n, s.p, sep) then s.(p := s.p + 1)
    else if s.i + 1 < nCol then Scan(s.z[s.p := NUL], s.cols[s.i + 1 := s.p + |sep|], s.p + |sep|, s.i + 1)
    else Scan(s.z[s.p := NUL], s.cols, s.p + 1, s.i + 1)
  }

  /** The loop as a function of its state. */
  function Finish(s: Scan, n: nat, sep: Bytes, nCol: nat): Scan
    requires s.p <= n < |s.z| && sep != [] && |s.cols| == nCol + 1
    decreases n - s.p
  {
    if s.p == n || IsBreak(s.z[s.p]) then s else Finish(Step(s, n, sep, nCol), n, sep, nCol)
  }

  /** What the loop reads ahead of `p` is the original line. */
  ghost predicate Ahead(line: Bytes, z: Bytes, p: nat) {
    p <= |line| < |z| && z[|line|] == NUL && z[p..|line|] == line[p..]
  }

  lemma AheadReads(line: Bytes, z: Bytes, p: nat, sep: Bytes)
    requires Ahead(line, z, p)
    ensures p < |line| ==> z[p] == line[p] && Ahead(line, z, p + 1) && Ahead(line, z[p := NUL], p + 1)
    ensures SeparatorAt(z, |line|, p, sep) <==> sep <= line[p..]
    ensures p < |line| && sep != [] && sep <= line[p..] ==> Ahead(line, z[p := NUL], p + |sep|)
  {
    if p < |line| {
      assert z[p] == z[p..|line|][0] == line[p..][0];
      assert z[p + 1..|line|] == z[p..|line|][1..] == line[p + 1..];
    }
    if p + |sep| <= |line| {
      assert z[p..p + |sep|] == z[p..|line|][..|sep|];
      assert z[p + |sep|..|line|] == z[p..|line|][|sep|..] == line[p + |sep|..];
    }
  }

  lemma AheadStep(line: Bytes, s: Scan, sep: Bytes, nCol: nat)
    requires Ahead(line, s.z, s.p) && s.p < |line| && sep != [] && |s.cols| == nCol + 1
    ensures var t := Step(s, |line|, sep, nCol); Ahead(line, t.z, t.p)
  {
    AheadReads(line, s.z, s.p, sep);
  }

  /** Once too many separators were seen, their number stays too large. */
  lemma {:induction false} FinishTooMany(s: Scan, line: Bytes, sep: Bytes, nCol: nat)
    requires sep != [] && |s.cols| == nCol + 1 && s.i >= nCol && Ahead(line, s.z, s.p)
    ensures Finish(s, |line|, sep, nCol).i >= nCol
    decreases |line| - s.p
  {
    AheadReads(line, s.z, s.p, sep);
    if s.p < |line| && !IsBreak(s.z[s.p]) {
      FinishTooMany(Step(s, |line|, sep, nCol), line, sep, nCol);
    }
  }

  /** What the loop has done when it stands in state `s`. */
  ghost predicate Progress(s: Scan, line: Bytes, sep: Bytes, nCol: nat, done: seq<Bytes>)
    requires sep != []
  {
    && |done| == s.i < nCol && |s.cols| == nCol + 1
    && Ahead(line, s.z, s.p)
    && Buffered(line, s.z, s.cols, done, nCol)
    && Pending(line, sep, done, s.cols[s.i], s.p)
  }

  /** A step at a separator completes a field, or sees one separator too many. */
  lemma StepAtSeparator(s: Scan, line: Bytes, sep: Bytes, nCol: nat, done: seq<Bytes>) returns (done': seq<Bytes>)
    requires sep != [] && NUL !in line && Progress(s, line, sep, nCol, done)
    requires s.p < |line| && !IsBreak(s.z[s.p]) && SeparatorAt(s.z, |line|, s.p, sep)
    ensures var t := Step(s, |line|, sep, nCol);
            && (t.i < nCol ==> Progress(t, line, sep, nCol, done'))
            && (t.i >= nCol ==> |Split(line, sep)| > nCol)
  {
    hide Split, Buffered, Pending, Ahead, SeparatorAt, IsBreak;
    var start, next := s.cols[s.i], s.p + |sep|;
    AheadReads(line, s.z, s.p, sep);
    AheadStep(line, s, sep, nCol);
    PendingRange(line, sep, done, start, s.p);
    PendingSeparator(line, sep, done, start, s.p);
    done' := done + [line[start..s.p]];
    if s.i + 1 < nCol {
      SplitAtSeparator(line, sep, s.p);
      BufferStep(line, s.z, s.cols, done, nCol, s.p, next);
    }
  }

  lemma PendingRange(line: Bytes, sep: Bytes, done: seq<Bytes>, start: nat, p: nat)
    requires sep != [] && Pending(line, sep, done, start, p)
    ensures start <= p <= |line|
  {}

  lemma StepOverByte(s: Scan, line: Bytes, sep: Bytes, nCol: nat, done: seq<Bytes>)
    requires sep != [] && Progress(s, line, sep, nCol, done)
    requires s.p < |line| && !IsBreak(s.z[s.p]) && !SeparatorAt(s.z, |line|, s.p, sep)
    ensures Progress(Step(s, |line|, sep, nCol), line, sep, nCol, done)
  {
    hide Split, Buffered, Pending, Ahead, SeparatorAt, IsBreak;
    AheadReads(line, s.z, s.p, sep);
    PendingByte(line, sep, done, s.cols[s.i], s.p);
  }

  /** The verdict and the fields that the loop must end with. */
  ghost predicate Right(t: Scan, line: Bytes, sep: Bytes, nCol: nat)
    requires sep != []
  {
    && (t.i + 1 == nCol <==> |Split(line, sep)| == nCol)
    && (t.i + 1 == nCol ==> ReadsAs(t.z, t.cols, Split(line, sep)))
  }

  lemma EndIsRight(s: Scan, line: Bytes, sep: Bytes, nCol: nat, done: seq<Bytes>)
    requires sep != [] && NUL !in line && Progress(s, line, sep, nCol, done)
    requires s.p == |line| || IsBreak(s.z[s.p])
    ensures Right(s, line, sep, nCol)
  {
    hide Split, Buffered, Pending, ReadsAs, IsBreak;
    AheadReads(line, s.z, s.p, sep);
    PendingEnd(line, sep, done, s.cols[s.i], s.p);
    FieldsReadable(line, s.z, s.cols, done, nCol);
  }

  /** The loop finds the greedy split when it has the right number of fields, and only then. */
  lemma {:induction false} FinishSplits(s: Scan, line: Bytes, sep: Bytes, nCol: nat, done: seq<Bytes>)
    requires sep != [] && NUL !in line && Progress(s, line, sep, nCol, done)
    ensures Right(Finish(s, |line|, sep, nCol), line, sep, nCol)
    decreases |line| - s.p
  {
    hide Split, Buffered, Pending, ReadsAs, IsBreak, Step, SeparatorAt;
    if s.p == |line| || IsBreak(s.z[s.p]) {
      EndIsRight(s, line, sep, nCol, done);
    } else {
      var t := Step(s, |line|, sep, nCol);
      AheadStep(line, s, sep, nCol);
      if !SeparatorAt(s.z, |line|, s.p, sep) {
        StepOverByte(s, line, sep, nCol, done);
        FinishSplits(t, line, sep, nCol, done);
      } else {
        var done' := StepAtSeparator(s, line, sep, nCol, done);
        if t.i < nCol {
          FinishSplits(t, line, sep, nCol, done');
        } else {
          FinishTooMany(t, line, sep, nCol);
        }
      }
    }
  }

  /** What the loop tests: whether the line ends at `p`, and strncmp(z + p, sep, |sep|) == 0. */
  predicate Matches(z: seq<byte>, p: nat, sep: Bytes)
    requires p <= |z|
  {
    p + |sep| <= |z| && z[p..p + |sep|] == sep
  }

  lemma TestsAhead(line: Bytes, z: Bytes, p: nat, sep: Bytes)
    requires Ahead(line, z, p) && NUL !in line && NUL !in sep
    ensures z[p] == NUL <==> p == |line|
    ensures Matches(z, p, sep) <==> SeparatorAt(z, |line|, p, sep)
  {
    if p < |line| {
      assert z[p] == z[p..|line|][0] == line[p];
    }
  }

  /** The loop body at a separator: end the field there and, if a column is left, start the next. */
  method EndField(z: array<byte>, ghost n: nat, sep: Bytes, nCol: nat, azCol: array<nat>, p: nat, i: nat)
    returns (p': nat, i': nat)
    requires p < n < z.Length && sep != [] && azCol.Length == nCol + 1 && SeparatorAt(z[..], n, p, sep)
    modifies z, azCol
    ensures Scan(z[..], azCol[..], p' + 1, i') == Step(old(Scan(z[..], azCol[..], p, i)), n, sep, nCol)
  {
    p', i' := p, i + 1;
    z[p] := NUL;
    if i' < nCol {
      azCol[i'] := p + |sep|;
      p' := p + |sep| - 1;
    }
  }

  /**
   Splits a line held as a C string in `z`, overwriting separators with NUL and noting where
   fields start.  The line is accepted, `i + 1 == nCol`, exactly if the greedy split has
   `nCol` fields, and the C strings at the noted places are then these fields.
   */
  method SplitInPlace(z: array<byte>, ghost line: Bytes, sep: Bytes, nCol: nat, azCol: array<nat>) returns (i: nat)
    requires |line| < z.Length && line <= z[..] && z[|line|] == NUL && NUL !in line
    requires sep != [] && NUL !in sep && nCol >= 1 && azCol.Length == nCol + 1
    modifies z, azCol
    ensures i + 1 == nCol <==> |Split(line, sep)| == nCol
    ensures i + 1 == nCol ==> ReadsAs(z[..], azCol[..], Split(line, sep))
  {
    ghost var n := |line|;
    var p := 0;
    i := 0;
    azCol[0] := 0;
    ghost var start := Scan(z[..], azCol[..], 0, 0);
    assert Ahead(line, start.z, 0) by { assert z[..][0..n] == line; }
    assert Buffered(line, start.z, start.cols, [], nCol) by { assert line[0..] == line; }
    PendingStart(line, sep);
    FinishSplits(start, line, sep, nCol, []);
    TestsAhead(line, z[..], p, sep);
    while z[p] != NUL && !IsBreak(z[p])
      invariant Ahead(line, z[..], p) && (z[p] == NUL <==> p == n)
      invariant Finish(Scan(z[..], azCol[..], p, i), n, sep, nCol) == Finish(start, n, sep, nCol)
      decreases n - p
    {
      ghost var s := Scan(z[..], azCol[..], p, i);
      TestsAhead(line, z[..], p, sep);
      AheadStep(line, s, sep, nCol);
      if Matches(z[..], p, sep) {
        p, i := EndField(z, n, sep, nCol, azCol, p, i);
      }
      p := p + 1;
      assert Scan(z[..], azCol[..], p, i) == Step(s, n, sep, nCol);
      TestsAhead(line, z[..], p, sep);
    }
  }
}
