/** The demo driver's call sequence, section by section, with the buffer after each
    call: the values its comments give, except in the two places noted. Each section
    leaves the stacks below what it pushes untouched, so it is stated for any undo
    stack `u` and redo stack `r` it starts from. Stacks are written one push at a time,
    `[a] + ([b] + u)`, which is the shape `Execute`, `Undo` and `Redo` build; a flat
    display such as `[a, b] + u` would make every step prove a sequence equality. */
module Demo {
  import opened Commands
  import opened History

  /** A run whose every step is known: the trace is the buffers of the histories
      passed through, and the run ends in the last of them. */
  lemma {:induction false} TraceBySteps(hs: seq<History>, calls: seq<Call>)
    requires |hs| == |calls| + 1
    requires forall i :: 0 <= i < |calls| ==> Apply(hs[i], calls[i]).0 == hs[i + 1]
    ensures |Trace(hs[0], calls)| == |calls|
    ensures forall i :: 0 <= i < |calls| ==> Trace(hs[0], calls)[i] == hs[i + 1].buffer
    ensures Run(hs[0], calls) == hs[|calls|]
    decreases |calls|
  {
    if calls != [] {
      TraceBySteps(hs[1..], calls[1..]);
    }
  }

  /** Title case of a literal buffer, checked position by position. */
  lemma TitleCasedLiteral(s: Text, t: Text)
    requires |s| == |t|
    requires forall k :: 0 <= k < |s| ==>
      t[k] == if StartsWord(s, k) then Casing.Upper(s[k]) else Casing.Lower(s[k])
    ensures TitleCased(s) == t
  {
  }

  lemma TitleCasedElloWorld()
    ensures TitleCased("ello world") == "Ello World"
  {
    TitleCasedLiteral("ello world", "Ello World");
  }

  lemma TitleCasedHelloWorld()
    ensures TitleCased("hello World") == "Hello World"
  {
    TitleCasedLiteral("hello World", "Hello World");
  }

  /** The manager the driver starts with: over "hello world", both stacks empty. */
  const Start: History := Initial("hello world")

  const AppendCalls: seq<Call> :=
    [Exec(AppendEnd('a')),
     Exec(AppendEnd('b')),
     UndoCall,
     UndoCall,
     RedoCall]

  const AppendBuffers: seq<Text> :=
    ["hello worlda", "hello worldab", "hello worlda", "hello world", "hello worlda"]

  /** Appending 'a' and 'b' at the end, two undos, one redo. (Program.cs:309-313) */
  lemma AppendSection(u: seq<Command>, r: seq<Command>)
    ensures Trace(History("hello world", u, r), AppendCalls) == AppendBuffers
    ensures Run(History("hello world", u, r), AppendCalls) ==
      History("hello worlda", [RemoveEnd(NoChar)] + u, [AppendEnd('b')])
  {
    var c := AppendCalls;
    var h0 := History("hello world", u, r);
    var h1 := History("hello worlda", [RemoveEnd(NoChar)] + u, []);
    var h2 := History("hello worldab", [RemoveEnd(NoChar)] + ([RemoveEnd(NoChar)] + u), []);
    var h3 := History("hello worlda", [RemoveEnd(NoChar)] + u, [AppendEnd('b')]);
    var h4 := History("hello world", u, [AppendEnd('a'), AppendEnd('b')]);
    var h5 := History("hello worlda", [RemoveEnd(NoChar)] + u, [AppendEnd('b')]);
    assert Apply(h0, c[0]).0 == h1;
    assert Apply(h1, c[1]).0 == h2;
    assert Apply(h2, c[2]).0 == h3;
    assert Apply(h3, c[3]).0 == h4;
    assert Apply(h4, c[4]).0 == h5;
    TraceBySteps([h0, h1, h2, h3, h4, h5], c);
  }

  const RemoveEndCalls: seq<Call> :=
    [Exec(RemoveEnd(NoChar)),
     Exec(RemoveEnd(NoChar)),
     UndoCall,
     UndoCall,
     RedoCall,
     RedoCall,
     UndoCall]

  const RemoveEndBuffers: seq<Text> :=
    ["hello world", "hello worl", "hello world", "hello worlda", "hello world", "hello worl", "hello world"]

  /** Two removes at the end, two undos, two redos, one undo. The comment on the
      fourth call reads "Hello worlda"; the buffer is "hello worlda". (Program.cs:316-322) */
  lemma RemoveEndSection(u: seq<Command>, r: seq<Command>)
    ensures Trace(History("hello worlda", u, r), RemoveEndCalls) == RemoveEndBuffers
    ensures Run(History("hello worlda", u, r), RemoveEndCalls) ==
      History("hello world", [AppendEnd('a')] + u, [RemoveEnd(NoChar)])
  {
    var c := RemoveEndCalls;
    var h0 := History("hello worlda", u, r);
    var h1 := History("hello world", [AppendEnd('a')] + u, []);
    var h2 := History("hello worl", [AppendEnd('d')] + ([AppendEnd('a')] + u), []);
    var h3 := History("hello world", [AppendEnd('a')] + u, [RemoveEnd(NoChar)]);
    var h4 := History("hello worlda", u, [RemoveEnd(NoChar), RemoveEnd(NoChar)]);
    var h5 := History("hello world", [AppendEnd('a')] + u, [RemoveEnd(NoChar)]);
    var h6 := History("hello worl", [AppendEnd('d')] + ([AppendEnd('a')] + u), []);
    var h7 := History("hello world", [AppendEnd('a')] + u, [RemoveEnd(NoChar)]);
    assert Apply(h0, c[0]).0 == h1;
    assert Apply(h1, c[1]).0 == h2;
    assert Apply(h2, c[2]).0 == h3;
    assert Apply(h3, c[3]).0 == h4;
    assert Apply(h4, c[4]).0 == h5;
    assert Apply(h5, c[5]).0 == h6;
    assert Apply(h6, c[6]).0 == h7;
    TraceBySteps([h0, h1, h2, h3, h4, h5, h6, h7], c);
  }

  const RemoveStartCalls: seq<Call> :=
    [Exec(RemoveStart(NoChar)),
     Exec(RemoveStart(NoChar)),
     UndoCall,
     UndoCall,
     RedoCall]

  const RemoveStartBuffers: seq<Text> :=
    ["ello world", "llo world", "ello world", "hello world", "ello world"]

  /** Two removes at the start, two undos, one redo. (Program.cs:325-329) */
  lemma RemoveStartSection(u: seq<Command>, r: seq<Command>)
    ensures Trace(History("hello world", u, r), RemoveStartCalls) == RemoveStartBuffers
    ensures Run(History("hello world", u, r), RemoveStartCalls) ==
      History("ello world", [AppendStart('h')] + u, [RemoveStart(NoChar)])
  {
    var c := RemoveStartCalls;
    var h0 := History("hello world", u, r);
    var h1 := History("ello world", [AppendStart('h')] + u, []);
    var h2 := History("llo world", [AppendStart('e')] + ([AppendStart('h')] + u), []);
    var h3 := History("ello world", [AppendStart('h')] + u, [RemoveStart(NoChar)]);
    var h4 := History("hello world", u, [RemoveStart(NoChar), RemoveStart(NoChar)]);
    var h5 := History("ello world", [AppendStart('h')] + u, [RemoveStart(NoChar)]);
    assert Apply(h0, c[0]).0 == h1;
    assert Apply(h1, c[1]).0 == h2;
    assert Apply(h2, c[2]).0 == h3;
    assert Apply(h3, c[3]).0 == h4;
    assert Apply(h4, c[4]).0 == h5;
    TraceBySteps([h0, h1, h2, h3, h4, h5], c);
  }

  const CapitalizeCalls: seq<Call> :=
    [Exec(Capitalize(2)),
     Exec(Capitalize(0)),
     UndoCall,
     UndoCall,
     RedoCall]

  const CapitalizeBuffers: seq<Text> :=
    ["elLo world", "ElLo world", "elLo world", "ello world", "elLo world"]

  /** Capitalize at 2 and at 0, two undos, one redo. (Program.cs:332-336) */
  lemma CapitalizeSection(u: seq<Command>, r: seq<Command>)
    ensures Trace(History("ello world", u, r), CapitalizeCalls) == CapitalizeBuffers
    ensures Run(History("ello world", u, r), CapitalizeCalls) ==
      History("elLo world", [Lowercase(2)] + u, [Capitalize(0)])
  {
    var c := CapitalizeCalls;
    var h0 := History("ello world", u, r);
    var h1 := History("elLo world", [Lowercase(2)] + u, []);
    var h2 := History("ElLo world", [Lowercase(0)] + ([Lowercase(2)] + u), []);
    var h3 := History("elLo world", [Lowercase(2)] + u, [Capitalize(0)]);
    var h4 := History("ello world", u, [Capitalize(2), Capitalize(0)]);
    var h5 := History("elLo world", [Lowercase(2)] + u, [Capitalize(0)]);
    assert Apply(h0, c[0]).0 == h1;
    assert Apply(h1, c[1]).0 == h2;
    assert Apply(h2, c[2]).0 == h3;
    assert Apply(h3, c[3]).0 == h4;
    assert Apply(h4, c[4]).0 == h5;
    TraceBySteps([h0, h1, h2, h3, h4, h5], c);
  }

  const LowercaseCalls: seq<Call> :=
    [Exec(Lowercase(2)),
     UndoCall,
     RedoCall]

  const LowercaseBuffers: seq<Text> :=
    ["ello world", "elLo world", "ello world"]

  /** Lowercase at 2, undo, redo. (Program.cs:339-341) */
  lemma LowercaseSection(u: seq<Command>, r: seq<Command>)
    ensures Trace(History("elLo world", u, r), LowercaseCalls) == LowercaseBuffers
    ensures Run(History("elLo world", u, r), LowercaseCalls) ==
      History("ello world", [Capitalize(2)] + u, [])
  {
    var c := LowercaseCalls;
    var h0 := History("elLo world", u, r);
    var h1 := History("ello world", [Capitalize(2)] + u, []);
    var h2 := History("elLo world", u, [Lowercase(2)]);
    var h3 := History("ello world", [Capitalize(2)] + u, []);
    assert Apply(h0, c[0]).0 == h1;
    assert Apply(h1, c[1]).0 == h2;
    assert Apply(h2, c[2]).0 == h3;
    TraceBySteps([h0, h1, h2, h3], c);
  }

  const TitleCaseCalls: seq<Call> :=
    [Exec(TitleCase(NoSnapshot)),
     UndoCall,
     RedoCall]

  const TitleCaseBuffers: seq<Text> :=
    ["Ello World", "ello world", "Ello World"]

  /** Title case, undo (restores the snapshot), redo (title-cases again). (Program.cs:344-346) */
  lemma TitleCaseSection(u: seq<Command>, r: seq<Command>)
    ensures Trace(History("ello world", u, r), TitleCaseCalls) == TitleCaseBuffers
    ensures Run(History("ello world", u, r), TitleCaseCalls) ==
      History("Ello World", [NonTitleCase("ello world")] + u, [])
  {
    var c := TitleCaseCalls;
    var h0 := History("ello world", u, r);
    var h1 := History("Ello World", [NonTitleCase("ello world")] + u, []);
    var h2 := History("ello world", u, [TitleCase(NoSnapshot)]);
    var h3 := History("Ello World", [NonTitleCase("ello world")] + u, []);
    TitleCasedElloWorld();
    assert Apply(h0, c[0]).0 == h1;
    assert Apply(h1, c[1]).0 == h2;
    TitleCasedElloWorld();
    assert Apply(h2, c[2]).0 == h3;
    TraceBySteps([h0, h1, h2, h3], c);
  }

  const MixedEditsCalls: seq<Call> :=
    [Exec(AppendEnd('s')),
     Exec(AppendStart('h')),
     Exec(RemoveEnd(NoChar)),
     Exec(Lowercase(1)),
     Exec(TitleCase(NoSnapshot))]

  const MixedEditsBuffers: seq<Text> :=
    ["Ello Worlds", "hEllo Worlds", "hEllo World", "hello World", "Hello World"]

  /** The closing mixed sequence, its five edits. (Program.cs:349-353) */
  lemma MixedEditsSection(u: seq<Command>, r: seq<Command>)
    ensures Trace(History("Ello World", u, r), MixedEditsCalls) == MixedEditsBuffers
    ensures Run(History("Ello World", u, r), MixedEditsCalls) ==
      History("Hello World", [NonTitleCase("hello World")] + ([Capitalize(1)] + ([AppendEnd('s')] + ([RemoveStart(NoChar)] + ([RemoveEnd(NoChar)] + u)))), [])
  {
    var c := MixedEditsCalls;
    var h0 := History("Ello World", u, r);
    var h1 := History("Ello Worlds", [RemoveEnd(NoChar)] + u, []);
    var h2 := History("hEllo Worlds", [RemoveStart(NoChar)] + ([RemoveEnd(NoChar)] + u), []);
    var h3 := History("hEllo World", [AppendEnd('s')] + ([RemoveStart(NoChar)] + ([RemoveEnd(NoChar)] + u)), []);
    var h4 := History("hello World", [Capitalize(1)] + ([AppendEnd('s')] + ([RemoveStart(NoChar)] + ([RemoveEnd(NoChar)] + u))), []);
    var h5 := History("Hello World", [NonTitleCase("hello World")] + ([Capitalize(1)] + ([AppendEnd('s')] + ([RemoveStart(NoChar)] + ([RemoveEnd(NoChar)] + u)))), []);
    assert Apply(h0, c[0]).0 == h1;
    assert Apply(h1, c[1]).0 == h2;
    assert Apply(h2, c[2]).0 == h3;
    assert Apply(h3, c[3]).0 == h4;
    TitleCasedHelloWorld();
    assert Apply(h4, c[4]).0 == h5;
    TraceBySteps([h0, h1, h2, h3, h4, h5], c);
  }

  const MixedUndoRedoCalls: seq<Call> :=
    [UndoCall,
     UndoCall,
     UndoCall,
     UndoCall,
     UndoCall,
     RedoCall,
     RedoCall]

  const MixedUndoRedoBuffers: seq<Text> :=
    ["hello World", "hEllo World", "hEllo Worlds", "Ello Worlds", "Ello World", "Ello Worlds", "hEllo Worlds"]

  /** The closing mixed sequence, five undos and two redos, from where its edits
      left the history. The comment on the first undo reads "hello world"; the snapshot it
      restores, and so the buffer, is "hello World". (Program.cs:354-360) */
  lemma MixedUndoRedoSection(u: seq<Command>)
    ensures Trace(History("Hello World", [NonTitleCase("hello World")] + ([Capitalize(1)] + ([AppendEnd('s')] + ([RemoveStart(NoChar)] + ([RemoveEnd(NoChar)] + u)))), []), MixedUndoRedoCalls) == MixedUndoRedoBuffers
    ensures Run(History("Hello World", [NonTitleCase("hello World")] + ([Capitalize(1)] + ([AppendEnd('s')] + ([RemoveStart(NoChar)] + ([RemoveEnd(NoChar)] + u)))), []), MixedUndoRedoCalls) ==
      History("hEllo Worlds", [RemoveStart(NoChar)] + ([RemoveEnd(NoChar)] + u), [RemoveEnd(NoChar), Lowercase(1), TitleCase(NoSnapshot)])
  {
    var c := MixedUndoRedoCalls;
    var h0 := History("Hello World", [NonTitleCase("hello World")] + ([Capitalize(1)] + ([AppendEnd('s')] + ([RemoveStart(NoChar)] + ([RemoveEnd(NoChar)] + u)))), []);
    var h1 := History("hello World", [Capitalize(1)] + ([AppendEnd('s')] + ([RemoveStart(NoChar)] + ([RemoveEnd(NoChar)] + u))), [TitleCase(NoSnapshot)]);
    var h2 := History("hEllo World", [AppendEnd('s')] + ([RemoveStart(NoChar)] + ([RemoveEnd(NoChar)] + u)), [Lowercase(1), TitleCase(NoSnapshot)]);
    var h3 := History("hEllo Worlds", [RemoveStart(NoChar)] + ([RemoveEnd(NoChar)] + u), [RemoveEnd(NoChar), Lowercase(1), TitleCase(NoSnapshot)]);
    var h4 := History("Ello Worlds", [RemoveEnd(NoChar)] + u, [AppendStart('h'), RemoveEnd(NoChar), Lowercase(1), TitleCase(NoSnapshot)]);
    var h5 := History("Ello World", u, [AppendEnd('s'), AppendStart('h'), RemoveEnd(NoChar), Lowercase(1), TitleCase(NoSnapshot)]);
    var h6 := History("Ello Worlds", [RemoveEnd(NoChar)] + u, [AppendStart('h'), RemoveEnd(NoChar), Lowercase(1), TitleCase(NoSnapshot)]);
    var h7 := History("hEllo Worlds", [RemoveStart(NoChar)] + ([RemoveEnd(NoChar)] + u), [RemoveEnd(NoChar), Lowercase(1), TitleCase(NoSnapshot)]);
    assert Apply(h0, c[0]).0 == h1;
    assert Apply(h1, c[1]).0 == h2;
    assert Apply(h2, c[2]).0 == h3;
    assert Apply(h3, c[3]).0 == h4;
    assert Apply(h4, c[4]).0 == h5;
    assert Apply(h5, c[5]).0 == h6;
    assert Apply(h6, c[6]).0 == h7;
    TraceBySteps([h0, h1, h2, h3, h4, h5, h6, h7], c);
  }

  const MainCalls: seq<Call> :=
    AppendCalls + RemoveEndCalls + RemoveStartCalls + CapitalizeCalls + LowercaseCalls + TitleCaseCalls + MixedEditsCalls + MixedUndoRedoCalls

  /** The whole driver from a fresh manager over "hello world" (Program.cs:306-360). */
  lemma MainTrace()
    ensures Trace(Start, MainCalls) ==
      AppendBuffers + RemoveEndBuffers + RemoveStartBuffers + CapitalizeBuffers + LowercaseBuffers + TitleCaseBuffers + MixedEditsBuffers + MixedUndoRedoBuffers
  {
    AppendSection([], []);
    assert [RemoveEnd(NoChar)] + [] == [RemoveEnd(NoChar)];
    RemoveEndSection([RemoveEnd(NoChar)], [AppendEnd('b')]);
    RunConcat(Start, AppendCalls, RemoveEndCalls);
    RemoveStartSection([AppendEnd('a')] + [RemoveEnd(NoChar)], [RemoveEnd(NoChar)]);
    RunConcat(Start, AppendCalls + RemoveEndCalls, RemoveStartCalls);
    CapitalizeSection([AppendStart('h')] + ([AppendEnd('a')] + [RemoveEnd(NoChar)]), [RemoveStart(NoChar)]);
    RunConcat(Start, AppendCalls + RemoveEndCalls + RemoveStartCalls, CapitalizeCalls);
    LowercaseSection([Lowercase(2)] + ([AppendStart('h')] + ([AppendEnd('a')] + [RemoveEnd(NoChar)])), [Capitalize(0)]);
    RunConcat(Start, AppendCalls + RemoveEndCalls + RemoveStartCalls + CapitalizeCalls, LowercaseCalls);
    TitleCaseSection([Capitalize(2)] + ([Lowercase(2)] + ([AppendStart('h')] + ([AppendEnd('a')] + [RemoveEnd(NoChar)]))), []);
    RunConcat(Start, AppendCalls + RemoveEndCalls + RemoveStartCalls + CapitalizeCalls + LowercaseCalls, TitleCaseCalls);
    MixedEditsSection([NonTitleCase("ello world")] + ([Capitalize(2)] + ([Lowercase(2)] + ([AppendStart('h')] + ([AppendEnd('a')] + [RemoveEnd(NoChar)])))), []);
    RunConcat(Start, AppendCalls + RemoveEndCalls + RemoveStartCalls + CapitalizeCalls + LowercaseCalls + TitleCaseCalls, MixedEditsCalls);
    MixedUndoRedoSection([NonTitleCase("ello world")] + ([Capitalize(2)] + ([Lowercase(2)] + ([AppendStart('h')] + ([AppendEnd('a')] + [RemoveEnd(NoChar)])))));
    RunConcat(Start, AppendCalls + RemoveEndCalls + RemoveStartCalls + CapitalizeCalls + LowercaseCalls + TitleCaseCalls + MixedEditsCalls, MixedUndoRedoCalls);
  }
}
