/**
 Transactions and nested savepoints: the statements that dbBegin(), dbCommit() and
 dbRollback() issue, run against the transaction stack that SQLite's "SAVEPOINT"
 language page describes.  `D` is the type of database contents.
 */
module Savepoints {
  import opened Wrappers

  /** An open transaction or savepoint; BEGIN has no name. */
  datatype Frame<+D> = Frame(name: Option<string>, snapshot: D)

  /** `content` is what this connection sees, `durable` what a second connection sees. */
  datatype State<+D> = State(content: D, durable: D, stack: seq<Frame<D>>)

  datatype Statement<+D> =
    | Begin
    | Commit
    | Rollback
    | Savepoint(name: string)
    | Release(name: string)
    | RollbackTo(name: string)
    | Write(content: D)

  /** Savepoint names are compared without regard to ASCII case. */
  function Fold(c: char): char {
    if 'A' <= c <= 'Z' then c - 'A' + 'a' else c
  }

  predicate SameName(a: string, b: string) {
    |a| == |b| && forall i :: 0 <= i < |a| ==> Fold(a[i]) == Fold(b[i])
  }

  /** Equal, or one ASCII letter in two cases. */
  predicate SpelledAlike(a: char, b: char) {
    var x, y := a as int, b as int;
    x == y || (65 <= x <= 90 && y == x + 32) || (65 <= y <= 90 && x == y + 32)
  }

  /** Two names are the same exactly if they are spelled with the same letters. */
  lemma SameNameMeans(a: string, b: string)
    ensures SameName(a, b) <==> |a| == |b| && forall i :: 0 <= i < |a| ==> SpelledAlike(a[i], b[i])
  {}

  predicate IsNamed<D>(f: Frame<D>, name: string) {
    f.name.Some? && SameName(f.name.value, name)
  }

  /** The most recent frame with a matching name. */
  function Find<D>(stack: seq<Frame<D>>, name: string): (r: Option<nat>)
    ensures r.Some? ==> r.value < |stack| && IsNamed(stack[r.value], name)
    ensures r.Some? ==> forall k :: r.value < k < |stack| ==> !IsNamed(stack[k], name)
    ensures r.None? ==> forall k :: 0 <= k < |stack| ==> !IsNamed(stack[k], name)
  {
    if stack == [] then None
    else if IsNamed(stack[|stack| - 1], name) then Some(|stack| - 1)
    else Find(stack[..|stack| - 1], name)
  }

  /** One SQL statement; None is an error, which changes nothing. */
  function Exec<D>(s: State<D>, stmt: Statement<D>): Option<State<D>> {
    match stmt
    case Begin =>
      if s.stack != [] then None else Some(s.(stack := [Frame(None, s.content)]))
    case Commit =>
      if s.stack == [] then None else Some(State(s.content, s.content, []))
    case Rollback =>
      if s.stack == [] then None else Some(State(s.stack[0].snapshot, s.stack[0].snapshot, []))
    case Savepoint(name) =>
      Some(s.(stack := s.stack + [Frame(Some(name), s.content)]))
    case Release(name) =>
      (match Find(s.stack, name)
       case None => None
       case Some(k) => Some(State(s.content, if k == 0 then s.content else s.durable, s.stack[..k])))
    case RollbackTo(name) =>
      (match Find(s.stack, name)
       case None => None
       case Some(k) => Some(s.(content := s.stack[k].snapshot, stack := s.stack[..k + 1])))
    case Write(d) =>
      Some(State(d, if s.stack == [] then d else s.durable, s.stack))
  }

  /** The calls a user makes; `name` is the optional argument of dbBegin() and its siblings. */
  datatype Call<+D> =
    | DbBegin(name: Option<string>)
    | DbCommit(name: Option<string>)
    | DbRollback(name: Option<string>)
    | DbWrite(content: D)

  function Attempted<D>(s: State<D>, stmt: Statement<D>): (State<D>, bool) {
    match Exec(s, stmt)
    case None => (s, false)
    case Some(t) => (t, true)
  }

  /** One call and whether it succeeds; rolling back by name takes two statements. */
  function Perform<D>(s: State<D>, c: Call<D>): (State<D>, bool) {
    match c
    case DbBegin(None) => Attempted(s, Begin)
    case DbBegin(Some(n)) => Attempted(s, Savepoint(n))
    case DbCommit(None) => Attempted(s, Commit)
    case DbCommit(Some(n)) => Attempted(s, Release(n))
    case DbRollback(None) => Attempted(s, Rollback)
    case DbRollback(Some(n)) =>
      var (t, ok) := Attempted(s, RollbackTo(n));
      if ok then Attempted(t, Release(n)) else (t, false)
    case DbWrite(d) => Attempted(s, Write(d))
  }

  /** A whole session; a failed call reports its error and the session goes on. */
  function Run<D>(s: State<D>, calls: seq<Call<D>>): State<D>
    decreases calls
  {
    if calls == [] then s else Run(Perform(s, calls[0]).0, calls[1..])
  }

  /** What every session keeps: the bottom frame remembers the durable content. */
  predicate Consistent<D(==)>(s: State<D>) {
    && (s.stack == [] ==> s.content == s.durable)
    && (s.stack != [] ==> s.stack[0].snapshot == s.durable)
    && forall k :: 1 <= k < |s.stack| ==> s.stack[k].name.Some?
  }

  // ---------------------------------------------------------------- single calls

  lemma PerformNamed<D>(s: State<D>, name: string)
    ensures Perform(s, DbRollback(Some(name))) ==
            match Find(s.stack, name)
            case None => (s, false)
            case Some(k) =>
              var d := s.stack[k].snapshot;
              (State(d, if k == 0 then d else s.durable, s.stack[..k]), true)
    ensures Perform(s, DbCommit(Some(name))) ==
            match Find(s.stack, name)
            case None => (s, false)
            case Some(k) => (State(s.content, if k == 0 then s.content else s.durable, s.stack[..k]), true)
  {
    match Find(s.stack, name)
    case None =>
    case Some(k) =>
      var t := Exec(s, RollbackTo(name)).value;
      FindTop(t.stack, name);
      assert t.stack[..k] == s.stack[..k];
  }

  lemma FindTop<D>(stack: seq<Frame<D>>, name: string)
    requires stack != [] && IsNamed(stack[|stack| - 1], name)
    ensures Find(stack, name) == Some(|stack| - 1)
  {}

  /** Which calls succeed. */
  predicate Allowed<D>(s: State<D>, c: Call<D>) {
    match c
    case DbBegin(None) => s.stack == []
    case DbCommit(None) | DbRollback(None) => s.stack != []
    case DbCommit(Some(name)) => Find(s.stack, name).Some?
    case DbRollback(Some(name)) => Find(s.stack, name).Some?
    case DbBegin(Some(_)) | DbWrite(_) => true
  }

  /** No call fails halfway: it fails exactly if it is not allowed, and then changes nothing. */
  lemma FailureChangesNothing<D>(s: State<D>, c: Call<D>)
    ensures Perform(s, c).1 <==> Allowed(s, c)
    ensures !Perform(s, c).1 ==> Perform(s, c).0 == s
  {
    match c
    case DbRollback(Some(name)) => PerformNamed(s, name);
    case _ =>
  }

  /** A call pushes one frame, keeps the stack, or pops a suffix of it. */
  lemma PerformStack<D>(s: State<D>, c: Call<D>)
    ensures var t := Perform(s, c).0;
            || t.stack <= s.stack
            || (|t.stack| == |s.stack| + 1 && s.stack <= t.stack)
  {
    match c
    case DbRollback(Some(name)) => PerformNamed(s, name);
    case DbCommit(Some(name)) => PerformNamed(s, name);
    case _ =>
  }

  /**
   Every call keeps the invariant, and the content a second connection sees changes
   only when the call leaves no frame open; it is then this connection's content.
   */
  lemma PerformDurable<D>(s: State<D>, c: Call<D>)
    requires Consistent(s)
    ensures var t := Perform(s, c).0;
            && Consistent(t)
            && t.durable == (if t.stack == [] then t.content else s.durable)
  {
    match c
    case DbRollback(Some(name)) => PerformNamed(s, name);
    case DbCommit(Some(name)) => PerformNamed(s, name);
    case _ =>
  }

  // ---------------------------------------------------------------- whole sessions

  /** The content at the last moment of the session at which no frame was open. */
  function LastSettled<D>(s: State<D>, calls: seq<Call<D>>): D {
    var t := Run(s, calls);
    if t.stack == [] then t.content
    else if calls == [] then s.durable
    else LastSettled(s, calls[..|calls| - 1])
  }

  lemma {:induction false} RunAppend<D>(s: State<D>, calls: seq<Call<D>>, c: Call<D>)
    ensures Run(s, calls + [c]) == Perform(Run(s, calls), c).0
    decreases calls
  {
    if calls == [] {
      assert [c][1..] == [];
      assert calls + [c] == [c];
    } else {
      assert (calls + [c])[1..] == calls[1..] + [c];
      RunAppend(Perform(s, calls[0]).0, calls[1..], c);
    }
  }

  /** Durability over whole sessions, from any consistent state. */
  lemma {:induction false} SessionDurability<D>(s: State<D>, calls: seq<Call<D>>)
    requires Consistent(s)
    ensures Consistent(Run(s, calls))
    ensures Run(s, calls).durable == LastSettled(s, calls)
  {
    if calls != [] {
      var init, last := calls[..|calls| - 1], calls[|calls| - 1];
      assert calls == init + [last];
      SessionDurability(s, init);
      RunAppend(s, init, last);
      PerformDurable(Run(s, init), last);
    }
  }

  /** While the depth never falls below `depth`, the frames up to there stay as they were. */
  lemma {:induction false} FramesStay<D>(s: State<D>, calls: seq<Call<D>>, depth: nat)
    requires forall k :: 0 <= k <= |calls| ==> |Run(s, calls[..k]).stack| >= depth
    ensures |s.stack| >= depth && |Run(s, calls).stack| >= depth
    ensures Run(s, calls).stack[..depth] == s.stack[..depth]
  {
    assert |Run(s, calls[..0]).stack| >= depth;
    assert calls[..|calls|] == calls;
    if calls != [] {
      var init, last := calls[..|calls| - 1], calls[|calls| - 1];
      assert calls == init + [last];
      forall k | 0 <= k <= |init| ensures |Run(s, init[..k]).stack| >= depth {
        assert init[..k] == calls[..k];
      }
      FramesStay(s, init, depth);
      RunAppend(s, init, last);
      PerformStack(Run(s, init), last);
    }
  }

  /** The frame opened at `depth` is still there and the most recent one of its name. */
  predicate MostRecent<D>(stack: seq<Frame<D>>, depth: nat, name: string) {
    depth < |stack| && forall k :: depth < k < |stack| ==> !IsNamed(stack[k], name)
  }

  lemma Begun<D>(s: State<D>, name: string)
    ensures Perform(s, DbBegin(Some(name))).0 == s.(stack := s.stack + [Frame(Some(name), s.content)])
    ensures IsNamed(Frame(Some(name), s.content), name)
  {}

  /** Closing by name in a state in which the frame opened at `s` is still there. */
  lemma {:induction false} CloseFrame<D>(s: State<D>, name: string, u: State<D>)
    requires Consistent(s) && Consistent(u) && |s.stack| < |u.stack| && IsNamed(Frame(Some(name), s.content), name)
    requires u.stack[..|s.stack| + 1] == s.stack + [Frame(Some(name), s.content)]
    ensures var undone, kept := Perform(u, DbRollback(Some(name))), Perform(u, DbCommit(Some(name)));
            && undone.1 && kept.1 && kept.0.content == u.content
            && (MostRecent(u.stack, |s.stack|, name) <==> undone.0.stack == s.stack)
            && (MostRecent(u.stack, |s.stack|, name) ==> undone.0 == s)
            && (MostRecent(u.stack, |s.stack|, name) <==> kept.0.stack == s.stack)
  {
    var d, own := |s.stack|, s.stack + [Frame(Some(name), s.content)];
    assert u.stack[d] == u.stack[..d + 1][d] == own[d];
    assert d > 0 ==> u.stack[0] == u.stack[..d + 1][0] == own[0] == s.stack[0];
    assert u.stack[..d] == u.stack[..d + 1][..d] == own[..d] == s.stack;
    hide SameName, Perform, Exec;
    PerformNamed(u, name);
    var k := Find(u.stack, name).value;
    assert k >= d && (MostRecent(u.stack, d, name) <==> k == d);
  }

  /**
   dbBegin(name), any session that never closes that frame, then dbRollback(name) or
   dbCommit(name).  Rolling back restores content and stack, and committing keeps the
   content and restores the stack, exactly when no frame of the same name was left open.
   */
  lemma {:induction false} BeginThenClose<D>(s: State<D>, name: string, calls: seq<Call<D>>)
    requires Consistent(s)
    requires var t := Perform(s, DbBegin(Some(name))).0;
             forall k :: 0 <= k <= |calls| ==> |Run(t, calls[..k]).stack| > |s.stack|
    ensures var u := Run(Perform(s, DbBegin(Some(name))).0, calls);
            var undone, kept := Perform(u, DbRollback(Some(name))), Perform(u, DbCommit(Some(name)));
            && undone.1 && kept.1 && kept.0.content == u.content
            && (MostRecent(u.stack, |s.stack|, name) <==> undone.0.stack == s.stack)
            && (MostRecent(u.stack, |s.stack|, name) ==> undone.0 == s)
            && (MostRecent(u.stack, |s.stack|, name) <==> kept.0.stack == s.stack)
  {
    hide SameName, Exec, Consistent;
    Begun(s, name);
    var t := Perform(s, DbBegin(Some(name))).0;
    FramesStay(t, calls, |s.stack| + 1);
    PerformDurable(s, DbBegin(Some(name)));
    SessionDurability(t, calls);
    CloseFrame(s, name, Run(t, calls));
  }

  /** A call that opens a savepoint whose name is spelled with the same letters. */
  predicate Opens<D>(c: Call<D>, name: string) {
    && c.DbBegin? && c.name.Some? && |c.name.value| == |name|
    && forall i :: 0 <= i < |name| ==> SpelledAlike(c.name.value[i], name[i])
  }

  /** A frame after a call was there before, or the call opened it under its name. */
  lemma FrameOrigin<D>(s: State<D>, c: Call<D>, k: nat)
    requires k < |Perform(s, c).0.stack|
    ensures var t := Perform(s, c).0;
            (k < |s.stack| && t.stack[k] == s.stack[k]) || (c.DbBegin? && t.stack[k].name == c.name)
  {
    match c
    case DbRollback(Some(name)) => PerformNamed(s, name);
    case DbCommit(Some(name)) => PerformNamed(s, name);
    case _ =>
  }

  lemma {:induction false} NoneNamedAbove<D>(s: State<D>, calls: seq<Call<D>>, depth: nat, name: string)
    requires forall c :: c in calls ==> !Opens(c, name)
    requires forall k :: depth <= k < |s.stack| ==> !IsNamed(s.stack[k], name)
    ensures var t := Run(s, calls); forall k :: depth <= k < |t.stack| ==> !IsNamed(t.stack[k], name)
    decreases |calls|
  {
    if calls != [] {
      hide Perform, SameName, SpelledAlike;
      var t := Perform(s, calls[0]).0;
      assert calls[0] in calls && !Opens(calls[0], name);
      forall k | depth <= k < |t.stack| ensures !IsNamed(t.stack[k], name) {
        FrameOrigin(s, calls[0], k);
        if calls[0].DbBegin? && calls[0].name.Some? {
          SameNameMeans(calls[0].name.value, name);
        }
      }
      NoneNamedAbove(t, calls[1..], depth, name);
      assert Run(s, calls) == Run(t, calls[1..]);
    }
  }

  /**
   dbBegin(name), any session that never closes that frame and opens no other savepoint of
   that name (whatever the case of its letters), then dbRollback(name) or dbCommit(name):
   savepoints of other names, left open or not, do not matter.
   */
  lemma OtherNamesDoNotMatter<D>(s: State<D>, name: string, calls: seq<Call<D>>)
    requires Consistent(s) && forall c :: c in calls ==> !Opens(c, name)
    requires var t := Perform(s, DbBegin(Some(name))).0;
             forall k :: 0 <= k <= |calls| ==> |Run(t, calls[..k]).stack| > |s.stack|
    ensures var u := Run(Perform(s, DbBegin(Some(name))).0, calls);
            && Perform(u, DbRollback(Some(name))) == (s, true)
            && Perform(u, DbCommit(Some(name))).1
            && Perform(u, DbCommit(Some(name))).0.content == u.content
            && Perform(u, DbCommit(Some(name))).0.stack == s.stack
  {
    var t := Perform(s, DbBegin(Some(name))).0;
    assert calls[..|calls|] == calls;
    NoneNamedAbove(t, calls, |s.stack| + 1, name);
    BeginThenClose(s, name, calls);
  }

  /**
   Without a name, over any session that keeps the outermost frame open: rolling back returns
   to the content at the beginning whatever was committed inside, and committing publishes.
   */
  lemma BeginThenCloseAll<D>(s: State<D>, first: Call<D>, calls: seq<Call<D>>)
    requires Consistent(s) && s.stack == []
    requires var t := Perform(s, first).0; forall k :: 0 <= k <= |calls| ==> |Run(t, calls[..k]).stack| > 0
    ensures var u := Run(Perform(s, first).0, calls);
            && Perform(u, DbRollback(None)) == (s, true)
            && Perform(u, DbCommit(None)) == (State(u.content, u.content, []), true)
  {
    var t := Perform(s, first).0;
    assert calls[..0] == [];
    assert |Run(t, calls[..0]).stack| > 0;
    FramesStay(t, calls, 1);
    PerformDurable(s, first);
    SessionDurability(t, calls);
    var u := Run(t, calls);
    assert u.stack[0] == u.stack[..1][0] == t.stack[..1][0] == t.stack[0];
  }

  // ---------------------------------------------------------------- structured programs

  /** The result of work on the content, which an error may leave half done. */
  datatype Outcome<+D> = Done(content: D) | Failed(content: D)

  /** Code that opens named savepoints and closes them again, as dbWithTransaction-like helpers do. */
  datatype Program<!D> =
    | Work(f: D -> Outcome<D>)
    | Then(first: Program<D>, second: Program<D>)
    | Protect(name: string, body: Program<D>)
    | Attempt(body: Program<D>)

  /** Execution on the savepoint stack: commit on success, roll back on error and pass it on. */
  function Execute<D>(p: Program<D>, s: State<D>): (State<D>, bool) {
    match p
    case Work(f) =>
      var r := f(s.content);
      (Perform(s, DbWrite(r.content)).0, r.Done?)
    case Then(a, b) =>
      var (t, ok) := Execute(a, s);
      if ok then Execute(b, t) else (t, false)
    case Protect(name, body) =>
      var (t, ok) := Execute(body, Perform(s, DbBegin(Some(name))).0);
      if ok then Perform(t, DbCommit(Some(name))) else (Perform(t, DbRollback(Some(name))).0, false)
    case Attempt(body) => (Execute(body, s).0, true)
  }

  /** The meaning of the same code without any stack: an error in a protected body undoes it. */
  function Meaning<D>(p: Program<D>, d: D): Outcome<D> {
    match p
    case Work(f) => f(d)
    case Then(a, b) => (match Meaning(a, d) case Done(e) => Meaning(b, e) case Failed(e) => Failed(e))
    case Protect(_, body) => (match Meaning(body, d) case Done(e) => Done(e) case Failed(_) => Failed(d))
    case Attempt(body) => Done(Meaning(body, d).content)
  }

  /** What a step may do to the state: the stack is back, and only an empty stack publishes. */
  predicate Leaves<D(==)>(s: State<D>, t: State<D>, d: D) {
    t == State(d, if s.stack == [] then d else s.durable, s.stack)
  }

  /** Closing the frame just opened, whatever its name, with the content the body left. */
  lemma CloseOwnFrame<D>(s: State<D>, name: string, t: State<D>)
    requires Consistent(s)
    requires t.stack == s.stack + [Frame(Some(name), s.content)] && t.durable == s.durable
    ensures Perform(t, DbCommit(Some(name))).1 && Leaves(s, Perform(t, DbCommit(Some(name))).0, t.content)
    ensures Perform(t, DbRollback(Some(name))) == (s, true)
  {
    FindTop(t.stack, name);
    PerformNamed(t, name);
    assert t.stack[..|s.stack|] == s.stack;
  }

  /**
   Nested savepoints implement nested atomic blocks, at any depth and even if names repeat:
   every program leaves the stack as it found it and the content its stack-free meaning gives.
   */
  lemma {:induction false} NestingIsAtomic<D>(p: Program<D>, s: State<D>)
    requires Consistent(s)
    ensures var (t, ok) := Execute(p, s);
            && Consistent(t)
            && (ok <==> Meaning(p, s.content).Done?)
            && Leaves(s, t, Meaning(p, s.content).content)
    decreases p
  {
    match p
    case Work(f) =>
      PerformDurable(s, DbWrite(f(s.content).content));
    case Then(a, b) =>
      NestingIsAtomic(a, s);
      NestingIsAtomic(b, Execute(a, s).0);
    case Protect(name, body) =>
      var t := Perform(s, DbBegin(Some(name))).0;
      PerformDurable(s, DbBegin(Some(name)));
      NestingIsAtomic(body, t);
      var u := Execute(body, t).0;
      CloseOwnFrame(s, name, u);
      PerformDurable(u, DbCommit(Some(name)));
    case Attempt(body) =>
      NestingIsAtomic(body, s);
  }

  /** A protected block that fails is as if it had never run. */
  lemma FailedBlockLeavesNoTrace<D>(name: string, body: Program<D>, s: State<D>)
    requires Consistent(s) && Meaning(body, s.content).Failed?
    ensures Execute(Protect(name, body), s) == (s, false)
  {
    NestingIsAtomic(Protect(name, body), s);
  }

  /** Without restoring the inner frame first, a repeated name closes the wrong savepoint. */
  lemma RepeatedNameLeftOpen()
    ensures var s := State(0, 0, []);
            var calls := [DbWrite(1), DbBegin(Some("a")), DbWrite(2)];
            var u := Run(Perform(s, DbBegin(Some("a"))).0, calls);
            var undone := Perform(u, DbRollback(Some("A"))).0;
            undone.content == 1 && |undone.stack| == 1
  {
    var s: State<int> := State(0, 0, []);
    var a: Frame<int> := Frame(Some("a"), 0);
    var b: Frame<int> := Frame(Some("a"), 1);
    var s1: State<int> := State(0, 0, [a]);
    var s2: State<int> := State(1, 0, [a]);
    var s3: State<int> := State(1, 0, [a, b]);
    var s4: State<int> := State(2, 0, [a, b]);
    assert Perform(s, DbBegin(Some("a"))).0 == s1;
    assert Perform(s1, DbWrite(1)).0 == s2;
    assert Perform(s2, DbBegin(Some("a"))).0 == s3;
    assert Perform(s3, DbWrite(2)).0 == s4;
    var calls: seq<Call<int>> := [DbWrite(1), DbBegin(Some("a")), DbWrite(2)];
    assert calls[1..][1..] == [DbWrite(2)] && [DbWrite(2)][1..] == [];
    assert Run(s3, calls[1..][1..]) == s4;
    assert Run(s1, calls) == s4;
    assert IsNamed(b, "A") by {
      assert forall i :: 0 <= i < 1 ==> Fold("a"[i]) == Fold("A"[i]);
    }
    FindTop(s4.stack, "A");
    PerformNamed(s4, "A");
  }
}
