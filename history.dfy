/** The undo/redo protocol of `CommandManager` over values: a history is the buffer and
    the two stacks (top of each stack at index 0). The class in module Manager is
    proved to follow these functions step by step. */
module History {
  import opened Commands

  datatype History = History(buffer: Text, undo: seq<Command>, redo: seq<Command>)

  /** What a manager call reports: it returned normally, or a `Do()` it ran threw. */
  datatype Status = Ok | Threw(fault: Fault)

  /** A fresh manager over `s`: both stacks empty. */
  function Initial(s: Text): History { History(s, [], []) }

  /** `ExecuteCommand`: do the command, push its opposite on the undo stack and clear
      the redo stack. A command that throws leaves everything as it was. */
  function Execute(h: History, c: Command): (r: (History, Status))
    ensures r.1.Ok? <==> Applicable(c, |h.buffer|)
    ensures r.1 == Ok ==> r.0.redo == [] && |r.0.undo| == |h.undo| + 1 && r.0.undo[1..] == h.undo
    ensures r.1.Threw? ==> r.0 == h
  {
    match Step(c, h.buffer)
    case Done(b, a) => (History(b, [Opposite(a)] + h.undo, []), Ok)
    case Failed(f) => (h, Threw(f))
  }

  /** `UndoCommand`: with an empty undo stack nothing happens. Otherwise the top is
      popped first and then done; on success its opposite goes onto the redo stack, and
      if it throws it is lost, with the buffer and the redo stack untouched. */
  function Undo(h: History): (r: (History, Status))
    ensures h.undo == [] ==> r == (h, Ok)
    ensures h.undo != [] ==> r.0.undo == h.undo[1..]
    ensures h.undo != [] && r.1 == Ok ==> |r.0.redo| == |h.redo| + 1 && r.0.redo[1..] == h.redo
    ensures r.1.Threw? ==> r.0.buffer == h.buffer && r.0.redo == h.redo
  {
    if h.undo == [] then (h, Ok)
    else match Step(h.undo[0], h.buffer)
      case Done(b, a) => (History(b, h.undo[1..], [Opposite(a)] + h.redo), Ok)
      case Failed(f) => (History(h.buffer, h.undo[1..], h.redo), Threw(f))
  }

  /** `RedoCommand`: the mirror image of `Undo`, from the redo stack to the undo stack. */
  function Redo(h: History): (r: (History, Status))
    ensures h.redo == [] ==> r == (h, Ok)
    ensures h.redo != [] ==> r.0.redo == h.redo[1..]
    ensures h.redo != [] && r.1 == Ok ==> |r.0.undo| == |h.undo| + 1 && r.0.undo[1..] == h.undo
    ensures r.1.Threw? ==> r.0.buffer == h.buffer && r.0.undo == h.undo
  {
    if h.redo == [] then (h, Ok)
    else match Step(h.redo[0], h.buffer)
      case Done(b, a) => (History(b, [Opposite(a)] + h.undo, h.redo[1..]), Ok)
      case Failed(f) => (History(h.buffer, h.undo, h.redo[1..]), Threw(f))
  }

  /** Undo or redo that returns normally moves exactly one command across: the total
      number of stacked commands is kept. One that throws loses its command. */
  lemma UndoRedoKeepCount(h: History)
    ensures Undo(h).1 == Ok ==> |Undo(h).0.undo| + |Undo(h).0.redo| == |h.undo| + |h.redo|
    ensures Redo(h).1 == Ok ==> |Redo(h).0.undo| + |Redo(h).0.redo| == |h.undo| + |h.redo|
    ensures Undo(h).1.Threw? ==> |Undo(h).0.undo| + |Undo(h).0.redo| + 1 == |h.undo| + |h.redo|
    ensures Redo(h).1.Threw? ==> |Redo(h).0.undo| + |Redo(h).0.redo| + 1 == |h.undo| + |h.redo|
  {
  }

  /** After a successful execute the new top of the undo stack is the undoing command
      of the table `UndoEntry`, built from the buffer before the execute (the removed
      character, the title-case snapshot); the rest of the undo stack is the old one. */
  lemma ExecutePushesOpposite(h: History, c: Command)
    requires Applicable(c, |h.buffer|)
    ensures Execute(h, c).1 == Ok
    ensures Execute(h, c).0.undo == [UndoEntry(c, h.buffer)] + h.undo
  {
    OppositeOfApplied(c, h.buffer);
  }

  /** An undo that returns normally puts on the redo stack the undoing command of the
      table `UndoEntry` for the command it popped and the buffer before the undo. */
  lemma UndoPushesOpposite(h: History)
    requires h.undo != [] && Undo(h).1 == Ok
    ensures Undo(h).0.redo == [UndoEntry(h.undo[0], h.buffer)] + h.redo
  {
    OppositeOfApplied(h.undo[0], h.buffer);
  }

  /** The mirror image: a redo that returns normally puts on the undo stack the
      `UndoEntry` of the command it popped and the buffer before the redo. */
  lemma RedoPushesOpposite(h: History)
    requires h.redo != [] && Redo(h).1 == Ok
    ensures Redo(h).0.undo == [UndoEntry(h.redo[0], h.buffer)] + h.undo
  {
    OppositeOfApplied(h.redo[0], h.buffer);
  }

  /** Execute then undo: the undo succeeds, the undo stack is back to what it was, and
      the buffer is back to what it was exactly when `Restores(c, buffer)` — always for
      AppendEnd/AppendStart/RemoveEnd/RemoveStart/TitleCase. */
  lemma ExecuteThenUndo(h: History, c: Command)
    requires Applicable(c, |h.buffer|)
    ensures var h2 := Undo(Execute(h, c).0);
            h2.1 == Ok && h2.0.undo == h.undo && |h2.0.redo| == 1 &&
            (h2.0.buffer == h.buffer <==> Restores(c, h.buffer))
  {
    UndoRestoresIff(c, h.buffer);
  }

  /** Execute, undo, redo: the whole history (buffer and both stacks) is back to what
      the execute left, for every variant. */
  lemma ExecuteUndoRedo(h: History, c: Command)
    requires Applicable(c, |h.buffer|)
    ensures Redo(Undo(Execute(h, c).0).0) == (Execute(h, c).0, Ok)
  {
    RedoReapplies(c, h.buffer);
  }

  /** A successful execute leaves nothing to redo: a redo right after it changes
      nothing and returns normally. */
  lemma RedoAfterExecute(h: History, c: Command)
    requires Applicable(c, |h.buffer|)
    ensures Redo(Execute(h, c).0) == (Execute(h, c).0, Ok)
  {
  }

  /** A new execute after an undo throws the redo history away: after two executes and
      an undo there is one command to redo, and after a further execute there is none. */
  lemma RedoInvalidated(h: History, a: Command, b: Command, c: Command)
    requires Applicable(a, |h.buffer|)
    requires Applicable(b, LenAfter(a, |h.buffer|))
    ensures var h3 := Undo(Execute(Execute(h, a).0, b).0).0;
            |h3.redo| == 1 &&
            (Applicable(c, |h3.buffer|) ==> Redo(Execute(h3, c).0) == (Execute(h3, c).0, Ok))
  {
    var h3 := Undo(Execute(Execute(h, a).0, b).0).0;
    if Applicable(c, |h3.buffer|) {
      RedoAfterExecute(h3, c);
    }
  }

  /** The length bookkeeping of a stack: starting from a buffer of length `n`, each
      command in turn (top first) is steady at the length the ones above it leave. */
  predicate Fits(n: nat, stack: seq<Command>)
    decreases |stack|
  {
    stack == [] || (Steady(stack[0], n) && Fits(LenAfter(stack[0], n), stack[1..]))
  }

  /** Every command on either stack can be done, in stack order, from the current
      buffer: no undo or redo will throw and lose its command. */
  predicate Consistent(h: History)
  {
    Fits(|h.buffer|, h.undo) && Fits(|h.buffer|, h.redo)
  }

  lemma InitialConsistent(s: Text)
    ensures Consistent(Initial(s))
  {
  }

  /** On a consistent history undo and redo never throw, and they keep it consistent. */
  lemma UndoRedoKeepConsistent(h: History)
    requires Consistent(h)
    ensures Undo(h).1 == Ok && Consistent(Undo(h).0)
    ensures Redo(h).1 == Ok && Consistent(Redo(h).0)
  {
    if h.undo != [] {
      StepKeepsShape(h.undo[0], h.buffer);
    }
    if h.redo != [] {
      StepKeepsShape(h.redo[0], h.buffer);
    }
  }

  /** Executing a steady command keeps a history consistent; an execute that throws
      changes nothing and keeps it too. */
  lemma ExecuteKeepsConsistent(h: History, c: Command)
    requires Consistent(h)
    requires c.NonTitleCase? ==> |c.previous| == |h.buffer|
    ensures Consistent(Execute(h, c).0)
  {
    if Applicable(c, |h.buffer|) {
      StepKeepsShape(c, h.buffer);
    }
  }

  /** One call a caller makes on the manager. */
  datatype Call = Exec(cmd: Command) | UndoCall | RedoCall

  function Apply(h: History, call: Call): (History, Status)
  {
    match call
    case Exec(c) => Execute(h, c)
    case UndoCall => Undo(h)
    case RedoCall => Redo(h)
  }

  /** The buffer after each call of a sequence of calls. */
  function Trace(h: History, calls: seq<Call>): (r: seq<Text>)
    ensures |r| == |calls|
    decreases |calls|
  {
    if calls == [] then []
    else var h1 := Apply(h, calls[0]).0; [h1.buffer] + Trace(h1, calls[1..])
  }

  /** The history after a sequence of calls. */
  function Run(h: History, calls: seq<Call>): History
    decreases |calls|
  {
    if calls == [] then h else Run(Apply(h, calls[0]).0, calls[1..])
  }

  /** Running two call sequences one after the other is running their concatenation;
      the trace of the whole is the two traces joined. */
  lemma {:induction false} RunConcat(h: History, a: seq<Call>, b: seq<Call>)
    ensures Run(h, a + b) == Run(Run(h, a), b)
    ensures Trace(h, a + b) == Trace(h, a) + Trace(Run(h, a), b)
    decreases |a|
  {
    if a == [] {
      assert a + b == b;
    } else {
      assert (a + b)[0] == a[0];
      assert (a + b)[1..] == a[1..] + b;
      RunConcat(Apply(h, a[0]).0, a[1..], b);
    }
  }

  /** No execute in the sequence restores a snapshot of a length other than the
      buffer's at that moment. */
  predicate SnapshotsMatch(h: History, calls: seq<Call>)
    decreases |calls|
  {
    calls == [] ||
    ((calls[0].Exec? && calls[0].cmd.NonTitleCase? ==> |calls[0].cmd.previous| == |h.buffer|) &&
     SnapshotsMatch(Apply(h, calls[0]).0, calls[1..]))
  }

  /** From a consistent history (in particular a fresh one), any sequence of calls whose
      snapshot restores match the buffer length leaves the history consistent, and no
      undo or redo along it throws. */
  lemma {:induction false} RunKeepsConsistent(h: History, calls: seq<Call>)
    requires Consistent(h)
    requires SnapshotsMatch(h, calls)
    ensures Consistent(Run(h, calls))
    ensures forall k :: 0 <= k < |calls| && !calls[k].Exec? ==> Apply(Run(h, calls[..k]), calls[k]).1 == Ok
    decreases |calls|
  {
    if calls != [] {
      var h1 := Apply(h, calls[0]).0;
      if calls[0].Exec? {
        ExecuteKeepsConsistent(h, calls[0].cmd);
      } else {
        UndoRedoKeepConsistent(h);
      }
      RunKeepsConsistent(h1, calls[1..]);
      forall k | 0 <= k < |calls| && !calls[k].Exec?
        ensures Apply(Run(h, calls[..k]), calls[k]).1 == Ok
      {
        if k > 0 {
          assert calls[..k][1..] == calls[1..][..k - 1];
          assert calls[1..][k - 1] == calls[k];
        }
      }
    }
  }

  /** Executing a snapshot restore of a different length is what breaks consistency:
      from "ab", append 'c', restore "", undo, undo — the second undo throws on the
      empty buffer and its command is gone from both stacks. */
  lemma MismatchedRestoreStrandsUndo()
    ensures var h := Run(Initial("ab"), [Exec(AppendEnd('c')), Exec(NonTitleCase("")), UndoCall]);
            Undo(h) == (History("", [], [NonTitleCase("")]), Threw(EmptyBuffer))
  {
    var calls := [Exec(AppendEnd('c')), Exec(NonTitleCase("")), UndoCall];
    var h1 := Execute(Initial("ab"), AppendEnd('c')).0;
    assert h1 == History("abc", [RemoveEnd(NoChar)], []);
    var h2 := Execute(h1, NonTitleCase("")).0;
    assert h2 == History("", [TitleCase(NoSnapshot), RemoveEnd(NoChar)], []);
    var h3 := Undo(h2).0;
    assert TitleCased("") == "";
    assert h3 == History("", [RemoveEnd(NoChar)], [NonTitleCase("")]);
    assert Run(Initial("ab"), calls) == Run(h1, calls[1..]);
    assert Run(h1, calls[1..]) == Run(h2, calls[2..]);
    assert Run(h2, calls[2..]) == Run(h3, []);
  }
}
