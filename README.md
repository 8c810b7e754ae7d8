# Reversible text commands with undo and redo

This project models a small command-pattern engine written in C#. One global
string buffer, `Program.test`, starts as `"hello world"`. There are eight
command classes:

- `AppendEnd` and `AppendStart` add a character at one end.
- `RemoveEnd` and `RemoveStart` take one off and remember it.
- `Capitalize` and `Lowercase` change the character at one index.
- `TitleCase` remembers the buffer, then title-cases it.
- `NonTitleCase` puts a remembered buffer back.

Each command has `Do()`, which edits the buffer, and `GetOpposite()`, which builds
the command that undoes it. A `CommandManager` keeps an undo stack and a redo
stack:

- Execute does a command, pushes its opposite on the undo stack and clears the
  redo stack.
- Undo pops the undo stack, does what it popped and pushes that command's opposite
  on the redo stack.
- Redo is the mirror image of undo.

The Dafny model has five modules:

- `Casing` holds the single-character case maps.
- `Commands` holds the command datatype. `Step` is `Do()`: it returns the new
  buffer and the command with its captured field filled in, or the fault the C#
  code would throw. `Opposite` is `GetOpposite()`. The method `TitleCaseLoop` is the
  title-case loop of `TitleCaseCommand.Do`.
- `History` holds the manager protocol as functions over values: `Execute`, `Undo`
  and `Redo`. Stacks are sequences with the top at index 0.
- `Manager` holds the class `CommandManager`, whose fields are the buffer and both
  stacks. Its methods update them in place, and each one is proved equal to the
  matching `History` function.
- `Demo` holds the driver's call sequence and the buffer after every call.
  `Manager.AppendClient` replays the driver's first section on the class itself,
  using nothing but the method contracts, and asserts the buffer after each call.

The main results:

- Undoing a command gives back the buffer it started from, with exact conditions
  for when it does not. This holds always for the appends, the removes and title
  case. `Capitalize` is undone only when the character was already in lower-case
  form. A snapshot restore is undone only when title-casing the snapshot gives the
  old buffer.
- Execute, undo, redo gives back exactly the history that execute produced.
- A new execute throws the redo history away.
- Under the invariant `Consistent`, no undo or redo can throw. `Consistent` says
  every stacked command can run, in stack order. Every manager operation keeps the
  invariant, except executing a `NonTitleCase` whose snapshot length differs from
  the buffer's. A concrete run shows how that case strands a later undo.
- An undo or redo whose command throws has already popped it. The command is then
  lost from both stacks, and the model keeps this behaviour of the code.

The driver's comments disagree with what the code does in two places:

- Program.cs:319 reads "Hello worlda", but the buffer is "hello worlda".
- Program.cs:354 reads "hello world". That undo restores the title-case snapshot,
  so the buffer is "hello World".

The model follows the code in both places.

## Model

| member | source | states |
|---|---|---|
| Casing.Upper | Program.cs:127-128 | upper-casing never leaves a lower-case letter; a lower-case ASCII letter maps to its upper-case letter (code point minus 32); every other character is unchanged |
| Casing.Lower | Program.cs:153-154 | lower-casing never leaves an upper-case letter; an upper-case ASCII letter maps to its lower-case letter (plus 32); every other character is unchanged |
| Casing.LowerOfUpper | Program.cs:125-134 | lowering an upper-cased character gives it back exactly when the character was already in lower-case form |
| Casing.UpperOfLower | Program.cs:151-160 | upper-casing a lowered character gives it back exactly when the character was already in upper-case form |
| Casing.CaseMapsAbsorb | Program.cs:125-160 | after a round trip through the other case map, applying a case map again gives what one application gives |
| Commands.ReplaceAt | Program.cs:127-128 | the substring splice has the buffer's length, holds the new character at the index, and leaves every other position unchanged |
| Commands.Step | Program.cs:33-227 | `Do()` succeeds exactly when the command can run on a buffer of that length (a remove needs a non-empty buffer, a case edit an index inside it); it gives the new length; a failure is an empty-buffer fault for a remove and an index fault for a case edit |
| Commands.OppositeOfApplied | Program.cs:38-232 | `GetOpposite()` after `Do()` gives, per variant, in terms of the buffer before `Do()`: a fresh `RemoveEnd`/`RemoveStart` for `AppendEnd`/`AppendStart`; `AppendEnd` of the last and `AppendStart` of the first character for `RemoveEnd`/`RemoveStart`; `Lowercase(i)` for `Capitalize(i)` and the reverse; `NonTitleCase` of the old buffer for `TitleCase`; a fresh `TitleCase` for `NonTitleCase` (the table `UndoEntry`) |
| Commands.RemoveEndCaptures | Program.cs:78-87 | on a non-empty buffer the remove succeeds; the buffer it leaves plus the captured last character is the old buffer; its opposite appends exactly that character |
| Commands.RemoveStartCaptures | Program.cs:99-108 | on a non-empty buffer the remove succeeds; the captured first character plus the buffer it leaves is the old buffer; its opposite prepends exactly that character |
| Commands.CaseEditOnlyAtIndex | Program.cs:125-160 | with an index inside the buffer, Capitalize/Lowercase keep the length, put the upper/lower form at the index, and change no other position |
| Commands.UndoRestoresIff | Program.cs:38-232 | the opposite of a command that ran always succeeds on the buffer it left, and gives the original buffer back if and only if `Restores` holds |
| Commands.RedoReapplies | Program.cs:38-232 | the opposite of the opposite succeeds, gives back the buffer the command produced, and pushes the same opposite again, for every variant |
| Commands.StepKeepsShape | Program.cs:33-232 | a steady command succeeds; its opposite is steady at the new length and brings the length back to the old one |
| Commands.TitleCaseLoop | Program.cs:173-201 | the loop with the `capitalize` flag returns `TitleCased(s)`: same length, a character that starts a word (first, or after a space) upper-cased, every other character lower-cased |
| History.Execute | Program.cs:266-273 | execute succeeds exactly when the command can run; on success the redo stack is empty and exactly one entry sits on top of the old undo stack; a throwing command leaves the whole history unchanged |
| History.Undo | Program.cs:275-284 | an empty undo stack means no change; otherwise the top is popped whatever happens; on success exactly one entry goes on top of the old redo stack; on a throw the buffer and the redo stack are unchanged |
| History.Redo | Program.cs:286-296 | the mirror image of `Undo`, from the redo stack to the undo stack |
| History.UndoRedoKeepCount | Program.cs:275-296 | an undo or redo that succeeds keeps the total number of stacked commands; one that throws loses exactly one |
| History.ExecutePushesOpposite | Program.cs:266-270 | an execute of an applicable command returns normally, and the new undo top is the per-variant undoing command `UndoEntry` of the command and the buffer before the execute, on top of the old undo stack |
| History.UndoPushesOpposite | Program.cs:279-281 | an undo that returns normally pushes onto the redo stack the per-variant undoing command `UndoEntry` of the popped command and the buffer before the undo, on top of the old redo stack |
| History.RedoPushesOpposite | Program.cs:290-292 | a redo that returns normally pushes onto the undo stack the `UndoEntry` of the popped command and the buffer before the redo, on top of the old undo stack |
| History.ExecuteThenUndo | Program.cs:266-284 | execute then undo: the undo succeeds, the undo stack is back to what it was, one entry is on the redo stack, and the buffer is back exactly when `Restores` holds |
| History.ExecuteUndoRedo | Program.cs:266-296 | execute, undo, redo gives back exactly the history (buffer and both stacks) that the execute left, and redo succeeds |
| History.RedoAfterExecute | Program.cs:266-270 | after any successful execute a redo changes nothing and returns normally |
| History.RedoInvalidated | Program.cs:266-296 | after two executes and an undo there is exactly one command to redo; a further execute discards it, so a redo right after it changes nothing |
| History.InitialConsistent | Program.cs:247-251 | a fresh manager (both stacks empty) is consistent |
| History.UndoRedoKeepConsistent | Program.cs:275-296 | on a consistent history undo and redo never throw and leave the history consistent |
| History.ExecuteKeepsConsistent | Program.cs:266-270 | executing any command except a snapshot restore of another length keeps a history consistent |
| History.RunKeepsConsistent | Program.cs:266-296 | from a consistent history, any call sequence whose snapshot restores match the buffer length ends consistent, and no undo or redo along it throws |
| History.MismatchedRestoreStrandsUndo | Program.cs:275-284 | from "ab": append 'c', restore "", undo; a second undo then throws on the empty buffer and its command is on neither stack |
| Manager.CommandManager.constructor | Program.cs:247-251 | a new manager holds the given buffer and two empty stacks |
| Manager.CommandManager.Perform | Program.cs:33-227 | the in-place `Do()` returns exactly `Step` of the old buffer and overwrites the buffer with its result, or leaves the buffer alone on a fault |
| Manager.CommandManager.ExecuteCommand | Program.cs:266-273 | the new state and status are `Execute` of the old state; on success the undo stack is the per-variant undoing command `UndoEntry` of the command and the old buffer on top of the old undo stack, and the redo stack is empty; consistency is kept for any command except a snapshot restore of another length |
| Manager.CommandManager.UndoCommand | Program.cs:275-284 | the new state and status are `Undo` of the old state; nothing changes with an empty undo stack; on success the `UndoEntry` of the popped command and the old buffer is on top of the old redo stack; on a consistent manager undo succeeds and consistency is kept |
| Manager.CommandManager.RedoCommand | Program.cs:286-296 | the new state and status are `Redo` of the old state; nothing changes with an empty redo stack; on success the `UndoEntry` of the popped command and the old buffer is on top of the old undo stack; on a consistent manager redo succeeds and consistency is kept |
| Demo.AppendSection | Program.cs:309-313 | the buffers after each call of the append section, and the stacks it leaves on top of any it starts from |
| Demo.RemoveEndSection | Program.cs:316-322 | the buffers and end stacks of the remove-last section; the fourth buffer is "hello worlda" |
| Demo.RemoveStartSection | Program.cs:325-329 | the buffers and end stacks of the remove-first section |
| Demo.CapitalizeSection | Program.cs:332-336 | the buffers and end stacks of the capitalize section |
| Demo.LowercaseSection | Program.cs:339-341 | the buffers and end stacks of the lowercase section |
| Demo.TitleCaseSection | Program.cs:344-346 | the buffers and end stacks of the title-case section: the undo restores the snapshot, and the redo title-cases again |
| Demo.MixedEditsSection | Program.cs:349-353 | the buffers and end stacks of the five edits of the closing section |
| Demo.MixedUndoRedoSection | Program.cs:354-360 | the buffers and end stacks of the five undos and two redos that close the driver; the first undo gives "hello World" |
| Demo.MainTrace | Program.cs:306-360 | the buffer after every call the driver makes, from a fresh manager over "hello world" |

## Left out

- Console output: the `Console.WriteLine` calls of the manager (Program.cs:272, 282, 294), the section headers of `Main` and `Console.ReadKey` are I/O and are not modelled. `Demo` states the buffers those lines would print.
- The lazily created singleton `CommandManager.Manager` (Program.cs:243, 253-264) is not modelled. The driver uses the single instance, and `Demo` starts from one fresh manager.
- The global `Program.test` (Program.cs:302) becomes the `buffer` field of `CommandManager` (and of `History`). No other code touches it.
- Casing.Upper: the map is the invariant-culture ASCII upper-case map: only a-z change case. .NET's `ToUpper` follows the current culture, so under a Turkish culture even ASCII `i` becomes `İ`. Outside ASCII it also maps further letters to other single characters (`é` to `É`, `µ` to `Μ`, `ſ` to `S`). That changes which character comes out, and it breaks the round-trip laws: `ſ` upper-cases to `S`, which lower-cases to `s`, not `ſ`. None of that is modelled. Like .NET's one-character-to-one-character mapping, the map always gives exactly one character, so lengths are kept.
- Casing.Lower: the invariant-culture ASCII lower-case map: only A-Z change case. Under a Turkish culture `I` becomes `ı`, and outside ASCII .NET lowers further letters to other single characters (`É` to `é`). None of that is modelled.
- Text: the buffer is modelled as a sequence of Unicode scalar values, not of UTF-16 code units as a .NET `string` is. For text with a character outside the Basic Multilingual Plane, the source counts `Length` and the indexes of `Capitalize`/`Lowercase` in code units, and `RemoveEnd`/`RemoveStart` (Program.cs:80-81, 101-102) take off a single surrogate, leaving the other half behind. The model does not capture this.
- Commands.Opposite: calling `GetOpposite()` before `Do()` is not modelled on its own. A fresh remove command carries `NoChar` (C#'s default `'\0'`). A fresh title-case command carries `NoSnapshot`, the empty string, which stands for C#'s `null`. The manager only ever calls `GetOpposite()` after `Do()`.
- Commands.Step: indexes and lengths are unbounded integers. C#'s 32-bit `int` and the maximum string length are not modelled. A negative index and one at or past the end fail with the one fault `BadIndex`. C# throws `ArgumentOutOfRangeException` or `IndexOutOfRangeException`, depending on which call fails first.
- Object identity: commands are values. In the source `GetOpposite()` always builds a new object, and no command object is shared between the stacks once it has run, so identity is never observed.
- Exceptions: a thrown exception becomes `Failed`/`Threw`. What the uncaught exception would then do to the program (terminate it) is not modelled. The state at the moment of the throw is modelled.
