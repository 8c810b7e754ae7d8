/** `CommandManager` as a class: it owns the text buffer and the two stacks, and each
    method updates them in place exactly as the matching function of module History. */
module Manager {
  import opened Commands
  import opened History

  class CommandManager {
    var buffer: Text
    var undoStack: seq<Command>  // top at index 0
    var redoStack: seq<Command>  // top at index 0

    /** The manager's state as a value. */
    function State(): History
      reads this
    {
      History(buffer, undoStack, redoStack)
    }

    /** A manager over `initial` with empty stacks. */
    constructor (initial: Text)
      ensures State() == Initial(initial)
    {
      buffer := initial;
      undoStack := [];
      redoStack := [];
    }

    /** `c.Do()` against the buffer: overwrites it and returns the command with its
        captured field filled in; on a fault the buffer is left as it was. */
    method Perform(c: Command) returns (r: Outcome)
      modifies this`buffer
      ensures r == Step(c, old(buffer))
      ensures buffer == if r.Done? then r.buffer else old(buffer)
    {
      match c
      case AppendEnd(x) =>
        buffer := buffer + [x];
        r := Done(buffer, c);
      case AppendStart(x) =>
        buffer := [x] + buffer;
        r := Done(buffer, c);
      case RemoveEnd(_) =>
        if |buffer| == 0 {
          r := Failed(EmptyBuffer);
        } else {
          var last := buffer[|buffer| - 1];
          buffer := buffer[..|buffer| - 1];
          r := Done(buffer, RemoveEnd(last));
        }
      case RemoveStart(_) =>
        if |buffer| == 0 {
          r := Failed(EmptyBuffer);
        } else {
          var first := buffer[0];
          buffer := buffer[1..];
          r := Done(buffer, RemoveStart(first));
        }
      case Capitalize(i) =>
        if 0 <= i < |buffer| {
          buffer := ReplaceAt(buffer, i, Casing.Upper(buffer[i]));
          r := Done(buffer, c);
        } else {
          r := Failed(BadIndex);
        }
      case Lowercase(i) =>
        if 0 <= i < |buffer| {
          buffer := ReplaceAt(buffer, i, Casing.Lower(buffer[i]));
          r := Done(buffer, c);
        } else {
          r := Failed(BadIndex);
        }
      case TitleCase(_) =>
        var previous := buffer;
        buffer := TitleCaseLoop(buffer);
        r := Done(buffer, TitleCase(previous));
      case NonTitleCase(p) =>
        buffer := p;
        r := Done(buffer, c);
    }

    /** `ExecuteCommand`: do `c`, push its opposite, clear the redo stack; a command that
        throws changes nothing. */
    method ExecuteCommand(c: Command) returns (status: Status)
      modifies this
      ensures (State(), status) == Execute(old(State()), c)
      ensures status == Ok ==> redoStack == [] && undoStack == [UndoEntry(c, old(buffer))] + old(undoStack)
      ensures old(Consistent(State())) && (c.NonTitleCase? ==> |c.previous| == |old(buffer)|) ==>
                Consistent(State())
    {
      if Consistent(State()) && (c.NonTitleCase? ==> |c.previous| == |buffer|) {
        ExecuteKeepsConsistent(State(), c);
      }
      if Applicable(c, |buffer|) {
        OppositeOfApplied(c, buffer);
      }
      var r := Perform(c);
      if r.Failed? {
        status := Threw(r.fault);
      } else {
        undoStack := [Opposite(r.applied)] + undoStack;
        redoStack := [];
        status := Ok;
      }
    }

    /** `UndoCommand`: pop the undo stack, do what was popped, push its opposite on the
        redo stack. Nothing happens when the undo stack is empty. */
    method UndoCommand() returns (status: Status)
      modifies this
      ensures (State(), status) == Undo(old(State()))
      ensures old(undoStack) == [] ==> State() == old(State())
      ensures old(undoStack) != [] && status == Ok ==>
                redoStack == [UndoEntry(old(undoStack)[0], old(buffer))] + old(redoStack)
      ensures old(Consistent(State())) ==> status == Ok && Consistent(State())
    {
      if Consistent(State()) {
        UndoRedoKeepConsistent(State());
      }
      if undoStack != [] && Undo(State()).1 == Ok {
        UndoPushesOpposite(State());
      }
      status := Ok;
      if |undoStack| > 0 {
        var c := undoStack[0];
        undoStack := undoStack[1..];
        var r := Perform(c);
        if r.Done? {
          redoStack := [Opposite(r.applied)] + redoStack;
        } else {
          status := Threw(r.fault);
        }
      }
    }

    /** `RedoCommand`: pop the redo stack, do what was popped, push its opposite on the
        undo stack. Nothing happens when the redo stack is empty. */
    method RedoCommand() returns (status: Status)
      modifies this
      ensures (State(), status) == Redo(old(State()))
      ensures old(redoStack) == [] ==> State() == old(State())
      ensures old(redoStack) != [] && status == Ok ==>
                undoStack == [UndoEntry(old(redoStack)[0], old(buffer))] + old(undoStack)
      ensures old(Consistent(State())) ==> status == Ok && Consistent(State())
    {
      if Consistent(State()) {
        UndoRedoKeepConsistent(State());
      }
      if redoStack != [] && Redo(State()).1 == Ok {
        RedoPushesOpposite(State());
      }
      status := Ok;
      if |redoStack| > 0 {
        var c := redoStack[0];
        redoStack := redoStack[1..];
        var r := Perform(c);
        if r.Done? {
          undoStack := [Opposite(r.applied)] + undoStack;
        } else {
          status := Threw(r.fault);
        }
      }
    }
  }

  /** A caller that sees only the method contracts: the append section of the demo. */
  method AppendClient()
  {
    var m := new CommandManager("hello world");
    var s := m.ExecuteCommand(AppendEnd('a'));
    assert m.buffer == "hello worlda";
    s := m.ExecuteCommand(AppendEnd('b'));
    assert m.buffer == "hello worldab";
    s := m.UndoCommand();
    assert m.buffer == "hello worlda";
    s := m.UndoCommand();
    assert m.buffer == "hello world";
    s := m.RedoCommand();
    assert m.buffer == "hello worlda";
    assert s == Ok;
  }
}
