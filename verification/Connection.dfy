/** A database connection and the three transaction functions that change its state. */
module Connections {
  import opened Wrappers
  import opened Savepoints

  class Connection<D> {
    var content: D
    var durable: D
    var stack: seq<Frame<D>>

    ghost function View(): State<D>
      reads this
    {
      State(content, durable, stack)
    }

    constructor (initial: D)
      ensures View() == State(initial, initial, [])
    {
      content, durable, stack := initial, initial, [];
    }

    /** One SQL statement, run by the engine in place. */
    method Execute(stmt: Statement<D>) returns (ok: bool)
      modifies this
      ensures ok <==> old(Exec(View(), stmt)).Some?
      ensures View() == if ok then old(Exec(View(), stmt)).value else old(View())
    {
      ok := true;
      match stmt
      case Begin =>
        if stack != [] { return false; }
        stack := [Frame(None, content)];
      case Commit =>
        if stack == [] { return false; }
        durable, stack := content, [];
      case Rollback =>
        if stack == [] { return false; }
        content, durable, stack := stack[0].snapshot, stack[0].snapshot, [];
      case Savepoint(name) =>
        stack := stack + [Frame(Some(name), content)];
      case Release(name) =>
        var found := Find(stack, name);
        if found.None? { return false; }
        stack := stack[..found.value];
        if stack == [] { durable := content; }
      case RollbackTo(name) =>
        var found := Find(stack, name);
        if found.None? { return false; }
        content := stack[found.value].snapshot;
        stack := stack[..found.value + 1];
      case Write(d) =>
        content := d;
        if stack == [] { durable := d; }
    }

    method DbBegin(name: Option<string>) returns (ok: bool)
      modifies this
      ensures (View(), ok) == old(Perform(View(), Call.DbBegin(name)))
    {
      if name.None? {
        ok := Execute(Begin);
      } else {
        ok := Execute(Savepoint(name.value));
      }
    }

    method DbCommit(name: Option<string>) returns (ok: bool)
      modifies this
      ensures (View(), ok) == old(Perform(View(), Call.DbCommit(name)))
    {
      if name.None? {
        ok := Execute(Commit);
      } else {
        ok := Execute(Release(name.value));
      }
    }

    method DbRollback(name: Option<string>) returns (ok: bool)
      modifies this
      ensures (View(), ok) == old(Perform(View(), Call.DbRollback(name)))
    {
      if name.None? {
        ok := Execute(Rollback);
      } else {
        ok := Execute(RollbackTo(name.value));
        if ok {
          ok := Execute(Release(name.value));
        }
      }
    }

    /** A data change whose outcome the engine decides; an error may leave it half done. */
    method Apply(o: Outcome<D>) returns (ok: bool)
      modifies this
      ensures ok == o.Done? && Leaves(old(View()), View(), o.content)
    {
      ok := Execute(Write(o.content));
      ok := o.Done?;
    }
  }
}
