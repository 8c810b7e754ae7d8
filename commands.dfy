/** The reversible commands over one text buffer: what `Do()` does to the buffer
    (and to the command's own captured field), and what `GetOpposite()` builds. */
module Commands {
  import opened Casing

  type Text = seq<char>

  /** The character a remove command holds before it has run (C#'s default char). */
  const NoChar: char := '\0'

  /** The snapshot a title-case command holds before it has run. */
  const NoSnapshot: Text := ""

  /** The eight command variants. `RemoveEnd`, `RemoveStart` and `TitleCase` carry the
      field their `Do()` fills in; a freshly built one carries `NoChar` / `NoSnapshot`. */
  datatype Command =
    | AppendEnd(ch: char)
    | AppendStart(ch: char)
    | RemoveEnd(removed: char)
    | RemoveStart(removed: char)
    | Capitalize(index: int)
    | Lowercase(index: int)
    | TitleCase(previous: Text)
    | NonTitleCase(previous: Text)

  /** Why a `Do()` throws: indexing an empty buffer, or an index outside the buffer. */
  datatype Fault = EmptyBuffer | BadIndex

  /** What one `Do()` leaves behind: the new buffer and the command with its captured
      field set, or the fault it threw (the buffer is then left untouched). */
  datatype Outcome = Done(buffer: Text, applied: Command) | Failed(fault: Fault)

  /** When `Do()` runs without throwing, given the buffer's length. */
  predicate Applicable(c: Command, n: nat)
  {
    match c
    case RemoveEnd(_) => n > 0
    case RemoveStart(_) => n > 0
    case Capitalize(i) => 0 <= i < n
    case Lowercase(i) => 0 <= i < n
    case _ => true
  }

  /** The buffer length after `Do()`, given the length before. */
  function LenAfter(c: Command, n: nat): nat
  {
    match c
    case AppendEnd(_) => n + 1
    case AppendStart(_) => n + 1
    case RemoveEnd(_) => if n == 0 then 0 else n - 1
    case RemoveStart(_) => if n == 0 then 0 else n - 1
    case NonTitleCase(p) => |p|
    case _ => n
  }

  /** `s.Substring(0, i) + x + s.Substring(i + 1)`. */
  function ReplaceAt(s: Text, i: nat, x: char): (r: Text)
    requires i < |s|
    ensures |r| == |s| && r[i] == x
    ensures forall k :: 0 <= k < |s| && k != i ==> r[k] == s[k]
  {
    s[..i] + [x] + s[i + 1..]
  }

  /** True when the character at `k` of `s` starts a word: it is the first one, or it
      follows a space. */
  predicate StartsWord(s: Text, k: nat)
    requires k < |s|
  {
    k == 0 || s[k - 1] == ' '
  }

  /** Title case: a character that starts a word is upper-cased, every other character
      is lower-cased. */
  function TitleCased(s: Text): (r: Text)
  {
    seq(|s|, k requires 0 <= k < |s| => if StartsWord(s, k) then Upper(s[k]) else Lower(s[k]))
  }

  /** `Do()`: the new buffer and the command with its captured field, or the fault. */
  function Step(c: Command, s: Text): (r: Outcome)
    ensures r.Done? <==> Applicable(c, |s|)
    ensures r.Done? ==> |r.buffer| == LenAfter(c, |s|)
    ensures r.Failed? ==> r.fault == if c.RemoveEnd? || c.RemoveStart? then EmptyBuffer else BadIndex
  {
    match c
    case AppendEnd(x) => Done(s + [x], c)
    case AppendStart(x) => Done([x] + s, c)
    case RemoveEnd(_) =>
      if |s| == 0 then Failed(EmptyBuffer) else Done(s[..|s| - 1], RemoveEnd(s[|s| - 1]))
    case RemoveStart(_) =>
      if |s| == 0 then Failed(EmptyBuffer) else Done(s[1..], RemoveStart(s[0]))
    case Capitalize(i) =>
      if 0 <= i < |s| then Done(ReplaceAt(s, i, Upper(s[i])), c) else Failed(BadIndex)
    case Lowercase(i) =>
      if 0 <= i < |s| then Done(ReplaceAt(s, i, Lower(s[i])), c) else Failed(BadIndex)
    case TitleCase(_) => Done(TitleCased(s), TitleCase(s))
    case NonTitleCase(p) => Done(p, c)
  }

  /** `GetOpposite()`: a new command built from the (already applied) command's fields. */
  function Opposite(c: Command): Command
  {
    match c
    case AppendEnd(_) => RemoveEnd(NoChar)
    case AppendStart(_) => RemoveStart(NoChar)
    case RemoveEnd(x) => AppendEnd(x)
    case RemoveStart(x) => AppendStart(x)
    case Capitalize(i) => Lowercase(i)
    case Lowercase(i) => Capitalize(i)
    case TitleCase(p) => NonTitleCase(p)
    case NonTitleCase(_) => TitleCase(NoSnapshot)
  }

  /** The command that undoes `c` run on buffer `s`, read off variant by variant in
      terms of the buffer before the run: an append is undone by a fresh remove at the
      same end, a remove by appending the character it took, a case edit by the other
      case edit at the same index, title case by restoring `s`, and a restore by a
      fresh title case. */
  function UndoEntry(c: Command, s: Text): Command
    requires Applicable(c, |s|)
  {
    match c
    case AppendEnd(_) => RemoveEnd(NoChar)
    case AppendStart(_) => RemoveStart(NoChar)
    case RemoveEnd(_) => AppendEnd(s[|s| - 1])
    case RemoveStart(_) => AppendStart(s[0])
    case Capitalize(i) => Lowercase(i)
    case Lowercase(i) => Capitalize(i)
    case TitleCase(_) => NonTitleCase(s)
    case NonTitleCase(_) => TitleCase(NoSnapshot)
  }

  /** `GetOpposite()` called after `Do()`, as the manager always calls it, builds the
      entry of the table above: the captured character or snapshot is the one `Do()`
      found in the buffer. */
  lemma OppositeOfApplied(c: Command, s: Text)
    requires Applicable(c, |s|)
    ensures Step(c, s).Done?
    ensures Opposite(Step(c, s).applied) == UndoEntry(c, s)
  {
  }

  /** A remove at the end takes off the last character, remembers it, and its opposite
      appends exactly that character. */
  lemma RemoveEndCaptures(v: char, s: Text)
    requires s != []
    ensures Step(RemoveEnd(v), s).Done?
    ensures Step(RemoveEnd(v), s).buffer + [s[|s| - 1]] == s
    ensures Opposite(Step(RemoveEnd(v), s).applied) == AppendEnd(s[|s| - 1])
  {
  }

  /** A remove at the start takes off the first character, remembers it, and its
      opposite prepends exactly that character. */
  lemma RemoveStartCaptures(v: char, s: Text)
    requires s != []
    ensures Step(RemoveStart(v), s).Done?
    ensures [s[0]] + Step(RemoveStart(v), s).buffer == s
    ensures Opposite(Step(RemoveStart(v), s).applied) == AppendStart(s[0])
  {
  }

  /** Capitalize and Lowercase change only the character at their index. */
  lemma CaseEditOnlyAtIndex(c: Command, s: Text)
    requires c.Capitalize? || c.Lowercase?
    requires 0 <= c.index < |s|
    ensures Step(c, s).Done? && |Step(c, s).buffer| == |s|
    ensures Step(c, s).buffer[c.index] ==
      if c.Capitalize? then Upper(s[c.index]) else Lower(s[c.index])
    ensures forall k :: 0 <= k < |s| && k != c.index ==> Step(c, s).buffer[k] == s[k]
  {
  }

  /** When undoing `c` (applied to `s`) through its opposite gives `s` back. */
  predicate Restores(c: Command, s: Text)
  {
    match c
    case Capitalize(i) => 0 <= i < |s| ==> Lower(s[i]) == s[i]
    case Lowercase(i) => 0 <= i < |s| ==> Upper(s[i]) == s[i]
    case NonTitleCase(p) => TitleCased(p) == s
    case _ => true
  }

  /** Applying the opposite of a command that ran always succeeds, and gives the
      original buffer back exactly when `Restores` holds: always for the appends, the
      removes and title case; for Capitalize only when the character was already in
      lower-case form, for Lowercase only when it was already in upper-case form, and
      for a snapshot restore only when title-casing the snapshot gives the old buffer. */
  lemma UndoRestoresIff(c: Command, s: Text)
    requires Applicable(c, |s|)
    ensures Step(Opposite(Step(c, s).applied), Step(c, s).buffer).Done?
    ensures Step(Opposite(Step(c, s).applied), Step(c, s).buffer).buffer == s <==> Restores(c, s)
  {
    var d := Step(c, s);
    var u := Step(Opposite(d.applied), d.buffer);
    match c
    case AppendEnd(x) =>
      assert d.buffer[..|d.buffer| - 1] == s;
    case AppendStart(x) =>
      assert d.buffer[1..] == s;
    case RemoveEnd(_) =>
      assert d.buffer + [s[|s| - 1]] == s;
    case RemoveStart(_) =>
      assert [s[0]] + d.buffer == s;
    case Capitalize(i) =>
      LowerOfUpper(s[i]);
      assert u.buffer == ReplaceAt(d.buffer, i, Lower(Upper(s[i])));
      assert u.buffer[i] == Lower(Upper(s[i]));
      if Lower(s[i]) == s[i] {
        assert u.buffer == s;
      }
    case Lowercase(i) =>
      UpperOfLower(s[i]);
      assert u.buffer[i] == Upper(Lower(s[i]));
      if Upper(s[i]) == s[i] {
        assert u.buffer == s;
      }
    case TitleCase(_) =>
    case NonTitleCase(p) =>
  }

  /** Redoing after an undo: the opposite of the undo step, applied to the buffer the
      undo left, succeeds, gives back the buffer `c` produced, and pushes the same
      opposite again — for every variant, whether or not the undo restored `s`. */
  lemma RedoReapplies(c: Command, s: Text)
    requires Applicable(c, |s|)
    ensures var d := Step(c, s);
            var u := Step(Opposite(d.applied), d.buffer);
            u.Done? && Step(Opposite(u.applied), u.buffer).Done? &&
            Step(Opposite(u.applied), u.buffer).buffer == d.buffer &&
            Opposite(Step(Opposite(u.applied), u.buffer).applied) == Opposite(d.applied)
  {
    UndoRestoresIff(c, s);
    var d := Step(c, s);
    var u := Step(Opposite(d.applied), d.buffer);
    var r := Step(Opposite(u.applied), u.buffer);
    match c
    case AppendEnd(x) =>
    case AppendStart(x) =>
    case RemoveEnd(_) =>
      assert d.buffer + [s[|s| - 1]] == s;
    case RemoveStart(_) =>
      assert [s[0]] + d.buffer == s;
    case Capitalize(i) =>
      CaseMapsAbsorb(s[i]);
      assert r.buffer == d.buffer;
    case Lowercase(i) =>
      CaseMapsAbsorb(s[i]);
      assert r.buffer == d.buffer;
    case TitleCase(_) =>
    case NonTitleCase(p) =>
  }

  /** A command that may sit on a history stack at buffer length `n`: it is applicable,
      and a snapshot restore puts back a buffer of the same length. */
  predicate Steady(c: Command, n: nat)
  {
    Applicable(c, n) && (c.NonTitleCase? ==> |c.previous| == n)
  }

  /** Applying a steady command yields an opposite that is steady at the new length and
      brings the length back to the old one. */
  lemma StepKeepsShape(c: Command, s: Text)
    requires Steady(c, |s|)
    ensures Step(c, s).Done?
    ensures Steady(Opposite(Step(c, s).applied), |Step(c, s).buffer|)
    ensures LenAfter(Opposite(Step(c, s).applied), |Step(c, s).buffer|) == |s|
  {
  }

  /** The title-case loop of `TitleCaseCommand.Do`: walks the buffer once, keeping the
      `capitalize` flag and appending each converted character to an accumulator. */
  method TitleCaseLoop(s: Text) returns (r: Text)
    ensures r == TitleCased(s)
    ensures |r| == |s|
    ensures forall k :: 0 <= k < |s| ==> r[k] == if StartsWord(s, k) then Upper(s[k]) else Lower(s[k])
  {
    var capitalize := true;
    r := "";
    var i := 0;
    while i < |s|
      invariant 0 <= i <= |s|
      invariant |r| == i
      invariant capitalize <==> (i == 0 || s[i - 1] == ' ')
      invariant forall k :: 0 <= k < i ==> r[k] == if StartsWord(s, k) then Upper(s[k]) else Lower(s[k])
    {
      var c := s[i];
      if capitalize {
        r := r + [Upper(c)];
        capitalize := false;
      } else {
        r := r + [Lower(c)];
      }
      if c == ' ' {
        capitalize := true;
      }
      i := i + 1;
    }
  }
}
