/** The undo/redo history: two stacks of commands (most recent last), a
    bounded undo depth, and coalescing of a command into the previous one
    when it arrives within the merge window. The clock is an argument. */
module UndoRedo {
  import opened Options
  import opened Cursor
  import opened TextBuffer
  import opened Commands

  /** Undo entries kept; older ones are dropped. */
  const MaxUndoLevels: nat := 1000
  /** Commands closer together than this (in ms) may coalesce. */
  const MergeTimeoutMs: int := 1000

  datatype Manager = Manager(undoStack: seq<EditCommand>, redoStack: seq<EditCommand>, lastCommandTime: int)

  /** The manager's state and the buffer after an operation, with the cursor
      position undo/redo report (None for "nothing to do"). */
  datatype Outcome = Outcome(manager: Manager, buffer: Buffer, position: Option<Position>)

  /** The constructor: both stacks empty, clock at 0. */
  function NewManager(): (m: Manager)
    ensures !CanUndo(m) && !CanRedo(m) && m.lastCommandTime == 0
  {
    Manager([], [], 0)
  }

  /** `canUndo`. */
  predicate CanUndo(m: Manager) {
    |m.undoStack| > 0
  }

  /** `canRedo`. */
  predicate CanRedo(m: Manager) {
    |m.redoStack| > 0
  }

  /** `getUndoStackSize`. */
  function UndoStackSize(m: Manager): nat {
    |m.undoStack|
  }

  /** `getRedoStackSize`. */
  function RedoStackSize(m: Manager): nat {
    |m.redoStack|
  }

  /** The guard under which `addToUndoStack` coalesces `cmd` into the top entry. */
  predicate MergesIntoTop(m: Manager, cmd: EditCommand, now: int) {
    && |m.undoStack| > 0
    && now - m.lastCommandTime < MergeTimeoutMs
    && CanMerge(m.undoStack[|m.undoStack| - 1], cmd)
  }

  /** `addToUndoStack`: merge into the top entry when the guard holds,
      otherwise push and drop the oldest entry on overflow. The clock is
      stamped on both paths; the redo stack is not touched. */
  function AddToUndoStack(m: Manager, cmd: EditCommand, now: int): (r: Manager)
    ensures r.lastCommandTime == now && r.redoStack == m.redoStack
    ensures MergesIntoTop(m, cmd, now) ==>
      var n := |m.undoStack|;
      && |r.undoStack| == n
      && r.undoStack[..n - 1] == m.undoStack[..n - 1]
      && r.undoStack[n - 1] == Merge(m.undoStack[n - 1], cmd)
    ensures !MergesIntoTop(m, cmd, now) && |m.undoStack| < MaxUndoLevels ==>
      r.undoStack == m.undoStack + [cmd]
    ensures !MergesIntoTop(m, cmd, now) && |m.undoStack| >= MaxUndoLevels ==>
      r.undoStack == m.undoStack[1..] + [cmd]
    ensures |m.undoStack| <= MaxUndoLevels ==> |r.undoStack| <= MaxUndoLevels
  {
    if MergesIntoTop(m, cmd, now) then
      var n := |m.undoStack|;
      m.(undoStack := m.undoStack[n - 1 := Merge(m.undoStack[n - 1], cmd)], lastCommandTime := now)
    else
      var pushed := m.undoStack + [cmd];
      var kept := if |pushed| > MaxUndoLevels then pushed[1..] else pushed;
      assert |pushed| > MaxUndoLevels ==> kept == m.undoStack[1..] + [cmd];
      m.(undoStack := kept, lastCommandTime := now)
  }

  /** At capacity, a push that does not merge drops exactly the oldest entry. */
  lemma PushAtCapacityDropsOldest(m: Manager, cmd: EditCommand, now: int)
    requires |m.undoStack| == MaxUndoLevels && !MergesIntoTop(m, cmd, now)
    ensures var r := AddToUndoStack(m, cmd, now);
            |r.undoStack| == MaxUndoLevels && r.undoStack == m.undoStack[1..] + [cmd]
  {
  }

  /** `executeCommand`: execute, record (merge or push), then clear the redo
      stack, even when the command was merged. */
  function ExecuteCommand(m: Manager, b: Buffer, cmd: EditCommand, now: int): (o: Outcome)
    ensures o.manager.redoStack == [] && o.manager.lastCommandTime == now
    ensures o.buffer == Execute(cmd, b).buffer
    ensures o.position.None?
    ensures o.manager.undoStack == AddToUndoStack(m, Execute(cmd, b).command, now).undoStack
    ensures MergesIntoTop(m, cmd, now) ==> |o.manager.undoStack| == |m.undoStack|
    ensures !MergesIntoTop(m, cmd, now) && |m.undoStack| < MaxUndoLevels ==>
      |o.manager.undoStack| == |m.undoStack| + 1
    ensures |m.undoStack| <= MaxUndoLevels ==> |o.manager.undoStack| <= MaxUndoLevels
    ensures CanUndo(o.manager) && !CanRedo(o.manager)
  {
    var s := Execute(cmd, b);
    var m1 := AddToUndoStack(m, s.command, now);
    // merging looks only at kinds, positions and payloads, never at the flag
    assert MergesIntoTop(m, s.command, now) == MergesIntoTop(m, cmd, now)
      by { assert SameEdit(s.command, cmd); }
    Outcome(m1.(redoStack := []), s.buffer, None)
  }

  /** `undo`: on an empty stack, nothing changes and no position comes back.
      Otherwise the top entry is undone and moved to the redo stack, and its
      cursor position is returned. */
  function Undo(m: Manager, b: Buffer): (o: Outcome)
    ensures !CanUndo(m) ==> o == Outcome(m, b, None)
    ensures CanUndo(m) ==>
      var top := m.undoStack[|m.undoStack| - 1];
      var s := Commands.Undo(top, b);
      && o.manager.undoStack == m.undoStack[..|m.undoStack| - 1]
      && o.manager.redoStack == m.redoStack + [s.command]
      && o.manager.lastCommandTime == m.lastCommandTime
      && o.buffer == s.buffer
      && o.position == Some(GetCursorPosition(s.command))
  {
    if |m.undoStack| == 0 then Outcome(m, b, None)
    else
      var top := m.undoStack[|m.undoStack| - 1];
      var s := Commands.Undo(top, b);
      Outcome(m.(undoStack := m.undoStack[..|m.undoStack| - 1], redoStack := m.redoStack + [s.command]),
              s.buffer, Some(GetCursorPosition(s.command)))
  }

  /** The position `redo` reports: one column to the right for an insert,
      whatever its length; the anchor otherwise. */
  function RedoPosition(c: EditCommand): (p: Position)
    ensures c.InsertTextCommand? ==>
      p == Position(c.position.row, c.position.col + 1, c.position.displayCol + 1)
    ensures !c.InsertTextCommand? ==> p == c.position
  {
    var position := GetCursorPosition(c);
    if GetType(c) == "insert" then Position(position.row, position.col + 1, position.displayCol + 1)
    else position
  }

  /** `redo`: on an empty stack, nothing changes and no position comes back.
      Otherwise the top of the redo stack is re-executed and moved back to
      the undo stack. */
  function Redo(m: Manager, b: Buffer): (o: Outcome)
    ensures !CanRedo(m) ==> o == Outcome(m, b, None)
    ensures CanRedo(m) ==>
      var top := m.redoStack[|m.redoStack| - 1];
      var s := Commands.Redo(top, b);
      && o.manager.redoStack == m.redoStack[..|m.redoStack| - 1]
      && o.manager.undoStack == m.undoStack + [s.command]
      && o.manager.lastCommandTime == m.lastCommandTime
      && o.buffer == s.buffer
      && o.position == Some(RedoPosition(s.command))
  {
    if |m.redoStack| == 0 then Outcome(m, b, None)
    else
      var top := m.redoStack[|m.redoStack| - 1];
      var s := Commands.Redo(top, b);
      Outcome(m.(redoStack := m.redoStack[..|m.redoStack| - 1], undoStack := m.undoStack + [s.command]),
              s.buffer, Some(RedoPosition(s.command)))
  }

  /** An undo right after a command was pushed (not merged) retracts it:
      the undo stack is as before, the buffer is the executed command's undo,
      and the reported position is the command's anchor. */
  lemma UndoRetractsPush(m: Manager, b: Buffer, cmd: EditCommand, now: int)
    requires !MergesIntoTop(m, cmd, now) && |m.undoStack| < MaxUndoLevels
    ensures var o := ExecuteCommand(m, b, cmd, now);
            var s := Execute(cmd, b);
            var u := Undo(o.manager, o.buffer);
            && u.manager.undoStack == m.undoStack
            && u.buffer == Commands.Undo(s.command, s.buffer).buffer
            && u.position == Some(cmd.position)
  {
    var s := Execute(cmd, b);
    var o := ExecuteCommand(m, b, cmd, now);
    assert o.manager.undoStack == m.undoStack + [s.command];
    assert (m.undoStack + [s.command])[..|m.undoStack|] == m.undoStack;
  }

  /** Undo then redo restores both stack sizes. */
  lemma UndoThenRedoRestoresSizes(m: Manager, b: Buffer)
    requires CanUndo(m)
    ensures var u := Undo(m, b);
            var r := Redo(u.manager, u.buffer);
            |r.manager.undoStack| == |m.undoStack| && |r.manager.redoStack| == |m.redoStack|
  {
  }

  /** After any new edit there is nothing to redo. */
  lemma RedoAfterEditIsEmpty(m: Manager, b: Buffer, cmd: EditCommand, now: int)
    ensures var o := ExecuteCommand(m, b, cmd, now);
            Redo(o.manager, o.buffer).position.None?
  {
  }

  /** Typing `x` and then `y` just after it leaves the same lines as
      inserting both at once. */
  lemma AdjacentInsertsCoalesce(b: Buffer, row: nat, col: nat, x: char, y: char)
    requires row < |b.lines| && col <= |b.lines[row]|
    requires x != '\n' && y != '\n'
    ensures InsertText(InsertText(b, Position(row, col, 0), [x]), Position(row, col + 1, 0), [y]).lines
            == InsertText(b, Position(row, col, 0), [x, y]).lines
  {
    var line := b.lines[row];
    assert PadTo(b.lines, row) == b.lines;
    var b1 := InsertText(b, Position(row, col, 0), [x]);
    assert PadTo(b1.lines, row) == b1.lines;
    var line1 := b1.lines[row];
    assert line1 == line[..col] + [x] + line[col..];
    assert ClampCol(line1, col + 1) == col + 1;
    assert line1[..col + 1] == line[..col] + [x];
    assert line1[col + 1..] == line[col..];
    var b2 := InsertText(b1, Position(row, col + 1, 0), [y]);
    var b3 := InsertText(b, Position(row, col, 0), [x, y]);
    assert b2.lines[row] == b3.lines[row];
    assert |b2.lines| == |b3.lines|;
    assert forall i :: 0 <= i < |b2.lines| ==> b2.lines[i] == b3.lines[i];
  }

  /** A fresh manager records its first command as the only entry. */
  lemma RecordOnFresh(b: Buffer, cmd: EditCommand, now: int)
    ensures ExecuteCommand(NewManager(), b, cmd, now).manager == Manager([Execute(cmd, b).command], [], now)
  {
  }

  /** A command that merges into a one-entry history leaves one entry: the merge. */
  lemma RecordMergeIntoOnly(top: EditCommand, t: int, b: Buffer, cmd: EditCommand, now: int)
    requires MergesIntoTop(Manager([top], [], t), cmd, now)
    ensures ExecuteCommand(Manager([top], [], t), b, cmd, now).manager
            == Manager([Merge(top, Execute(cmd, b).command)], [], now)
  {
  }

  /** Undoing the only entry of a history empties it and undoes that command. */
  lemma UndoOnly(top: EditCommand, t: int, b: Buffer)
    ensures var u := Undo(Manager([top], [], t), b);
            && u.manager == Manager([], [Commands.Undo(top, b).command], t)
            && u.buffer == Commands.Undo(top, b).buffer
  {
  }

  /** A keystroke recorded by a fresh manager: inserted and recorded as the
      only entry. */
  lemma FirstKeystroke(b: Buffer, p: Position, x: char, t: int)
    ensures ExecuteCommand(NewManager(), b, InsertTextCommand(p, [x], false), t)
         == Outcome(Manager([InsertTextCommand(p, [x], true)], [], t), InsertText(b, p, [x]), None)
  {
    RecordOnFresh(b, InsertTextCommand(p, [x], false), t);
  }

  /** A second keystroke just after a recorded one, within the window,
      merges into it. */
  lemma SecondKeystroke(b: Buffer, row: nat, col: nat, x: char, y: char, t0: int, t1: int)
    requires x != '\n' && y != '\n'
    requires t0 <= t1 < t0 + MergeTimeoutMs
    ensures var top := InsertTextCommand(Position(row, col, 0), [x], true);
            var q := Position(row, col + 1, 0);
            ExecuteCommand(Manager([top], [], t0), b, InsertTextCommand(q, [y], false), t1)
            == Outcome(Manager([InsertTextCommand(Position(row, col, 0), [x, y], true)], [], t1), InsertText(b, q, [y]), None)
  {
    var top := InsertTextCommand(Position(row, col, 0), [x], true);
    var c2 := InsertTextCommand(Position(row, col + 1, 0), [y], false);
    assert MergesIntoTop(Manager([top], [], t0), c2, t1);
    RecordMergeIntoOnly(top, t0, b, c2, t1);
    assert Merge(top, InsertTextCommand(Position(row, col + 1, 0), [y], true)) == InsertTextCommand(Position(row, col, 0), [x] + [y], true);
    assert [x] + [y] == [x, y];
  }

  /** The history a quickly typed pair leaves: one merged insert. */
  lemma TypedPairRecord(b: Buffer, row: nat, col: nat, x: char, y: char, t0: int, t1: int)
    requires x != '\n' && y != '\n'
    requires t0 <= t1 < t0 + MergeTimeoutMs
    ensures
      var o1 := ExecuteCommand(NewManager(), b, InsertTextCommand(Position(row, col, 0), [x], false), t0);
      var o2 := ExecuteCommand(o1.manager, o1.buffer, InsertTextCommand(Position(row, col + 1, 0), [y], false), t1);
      && o2.manager == Manager([InsertTextCommand(Position(row, col, 0), [x, y], true)], [], t1)
      && o2.buffer == InsertText(o1.buffer, Position(row, col + 1, 0), [y])
      && o1.buffer == InsertText(b, Position(row, col, 0), [x])
  {
    FirstKeystroke(b, Position(row, col, 0), x, t0);
    SecondKeystroke(InsertText(b, Position(row, col, 0), [x]), row, col, x, y, t0, t1);
  }

  /** Two single-character inserts typed at adjacent columns within the merge
      window become one history entry, and one undo removes both characters. */
  lemma TypedPairUndoesAsOne(b: Buffer, row: nat, col: nat, x: char, y: char, t0: int, t1: int)
    requires row < |b.lines| && col <= |b.lines[row]|
    requires x != '\n' && y != '\n'
    requires t0 <= t1 < t0 + MergeTimeoutMs
    ensures
      var o1 := ExecuteCommand(NewManager(), b, InsertTextCommand(Position(row, col, 0), [x], false), t0);
      var o2 := ExecuteCommand(o1.manager, o1.buffer, InsertTextCommand(Position(row, col + 1, 0), [y], false), t1);
      var u := Undo(o2.manager, o2.buffer);
      && |o2.manager.undoStack| == 1
      && u.buffer.lines == b.lines
      && !CanUndo(u.manager)
  {
    var p := Position(row, col, 0);
    var o1 := ExecuteCommand(NewManager(), b, InsertTextCommand(p, [x], false), t0);
    var o2 := ExecuteCommand(o1.manager, o1.buffer, InsertTextCommand(Position(row, col + 1, 0), [y], false), t1);
    TypedPairRecord(b, row, col, x, y, t0, t1);
    var merged := InsertTextCommand(p, [x, y], true);
    UndoOnly(merged, t1, o2.buffer);
    var u := Undo(o2.manager, o2.buffer);
    assert u.buffer == DeleteText(o2.buffer, p, 2);
    AdjacentInsertsCoalesce(b, row, col, x, y);
    var ins := InsertText(b, p, [x, y]);
    EditsSeeOnlyLines(o2.buffer, ins, p, "", 2);
    InsertThenDeleteRestores(b, p, [x, y]);
  }

  /** Two backspaces at the end of `line[..c]` read `line[c-1]` and then
      `line[c-2]`, and leave the row without `line[c-2..c]`. */
  lemma BackspaceTwice(b: Buffer, row: nat, c: nat)
    requires row < |b.lines| && 2 <= c <= |b.lines[row]|
    ensures var line := b.lines[row];
            var b1 := DeleteText(b, Position(row, c - 1, 0), 1);
            var b2 := DeleteText(b1, Position(row, c - 2, 0), 1);
            && GetText(b, Position(row, c - 1, 0), 1) == [line[c - 1]]
            && GetText(b1, Position(row, c - 2, 0), 1) == [line[c - 2]]
            && b2.lines == b.lines[row := line[..c - 2] + line[c..]]
  {
    var line := b.lines[row];
    var b1 := DeleteText(b, Position(row, c - 1, 0), 1);
    DeleteOneInRow(b, row, c - 1);
    var line1 := line[..c - 1] + line[c..];
    assert b1.lines == b.lines[row := line1];
    DeleteOneInRow(b1, row, c - 2);
    assert line1[c - 2] == line[c - 2];
    assert line1[..c - 2] + line1[c - 1..] == line[..c - 2] + line[c..] by {
      assert line1[..c - 2] == line[..c - 2];
      assert line1[c - 1..] == line[c..];
    }
  }

  /** Putting two removed characters back between the parts they separated
      gives the row back. */
  lemma SpliceBack(line: string, c: nat)
    requires 2 <= c <= |line|
    ensures var rest := line[..c - 2] + line[c..];
            rest[..c - 2] + [line[c - 2], line[c - 1]] + rest[c - 2..] == line
  {
    var rest := line[..c - 2] + line[c..];
    assert rest[..c - 2] == line[..c - 2] && rest[c - 2..] == line[c..];
    assert line == line[..c - 2] + [line[c - 2], line[c - 1]] + line[c..];
  }

  /** Two backspaces at the end of `line[..c]` remove `line[c-2..c]`, and
      re-inserting those two characters at the new column restores the lines. */
  lemma BackspacePairReinserts(b: Buffer, row: nat, c: nat)
    requires row < |b.lines| && 2 <= c <= |b.lines[row]|
    ensures var line := b.lines[row];
            var b2 := DeleteText(DeleteText(b, Position(row, c - 1, 0), 1), Position(row, c - 2, 0), 1);
            InsertText(b2, Position(row, c - 2, 0), [line[c - 2], line[c - 1]]).lines == b.lines
  {
    var line := b.lines[row];
    BackspaceTwice(b, row, c);
    var b2 := DeleteText(DeleteText(b, Position(row, c - 1, 0), 1), Position(row, c - 2, 0), 1);
    InsertInRow(b2, row, c - 2, [line[c - 2], line[c - 1]]);
    SpliceBack(line, c);
    assert b.lines[row := line] == b.lines;
  }

  /** A backspace recorded by a fresh manager: the character left of the
      cursor is read, deleted and recorded as the only entry. */
  lemma FirstBackspace(b: Buffer, row: nat, col: nat, t: int)
    requires row < |b.lines| && col < |b.lines[row]|
    ensures var p := Position(row, col, 0);
            var x := b.lines[row][col];
            ExecuteCommand(NewManager(), b, DeleteTextCommand(p, [x], false), t)
            == Outcome(Manager([DeleteTextCommand(p, [x], true)], [], t), DeleteText(b, p, 1), None)
  {
    var p := Position(row, col, 0);
    var c1 := DeleteTextCommand(p, [b.lines[row][col]], false);
    DeleteOneInRow(b, row, col);
    RecordOnFresh(b, c1, t);
  }

  /** A second backspace one column left of a recorded one, within the
      window, merges into it: the anchor moves left and the characters read
      in order. */
  lemma SecondBackspace(b: Buffer, row: nat, col: nat, y: char, t0: int, t1: int)
    requires row < |b.lines| && col < |b.lines[row]|
    requires b.lines[row][col] != '\n' && y != '\n'
    requires t0 <= t1 < t0 + MergeTimeoutMs
    ensures var p := Position(row, col, 0);
            var x := b.lines[row][col];
            var top := DeleteTextCommand(Position(row, col + 1, 0), [y], true);
            ExecuteCommand(Manager([top], [], t0), b, DeleteTextCommand(p, [x], false), t1)
            == Outcome(Manager([DeleteTextCommand(p, [x, y], true)], [], t1), DeleteText(b, p, 1), None)
  {
    var p := Position(row, col, 0);
    var x := b.lines[row][col];
    var top := DeleteTextCommand(Position(row, col + 1, 0), [y], true);
    var c2 := DeleteTextCommand(p, [x], false);
    DeleteOneInRow(b, row, col);
    assert Execute(c2, b) == Step(DeleteTextCommand(p, [x], true), DeleteText(b, p, 1));
    assert MergesIntoTop(Manager([top], [], t0), c2, t1);
    RecordMergeIntoOnly(top, t0, b, c2, t1);
    assert Merge(top, DeleteTextCommand(p, [x], true)) == DeleteTextCommand(p, [x] + [y], true);
    assert [x] + [y] == [x, y];
  }

  /** The history and buffer two quick backspaces leave: one delete anchored
      at the second one's column, holding both characters in reading order. */
  lemma BackspacePairRecord(b: Buffer, row: nat, c: nat, t0: int, t1: int)
    requires row < |b.lines| && 2 <= c <= |b.lines[row]| && NoBreak(b.lines[row])
    requires t0 <= t1 < t0 + MergeTimeoutMs
    ensures
      var line := b.lines[row];
      var p := Position(row, c - 2, 0);
      var o1 := ExecuteCommand(NewManager(), b, DeleteTextCommand(Position(row, c - 1, 0), [line[c - 1]], false), t0);
      var o2 := ExecuteCommand(o1.manager, o1.buffer, DeleteTextCommand(p, [line[c - 2]], false), t1);
      o2 == Outcome(Manager([DeleteTextCommand(p, [line[c - 2], line[c - 1]], true)], [], t1),
                    DeleteText(DeleteText(b, Position(row, c - 1, 0), 1), p, 1), None)
  {
    var line := b.lines[row];
    var x, y := line[c - 2], line[c - 1];
    assert x != '\n' && y != '\n' by {
      assert x in line && y in line;
    }
    var p1, p := Position(row, c - 1, 0), Position(row, c - 2, 0);
    FirstBackspace(b, row, c - 1, t0);
    var o1 := ExecuteCommand(NewManager(), b, DeleteTextCommand(p1, [y], false), t0);
    var b1 := DeleteText(b, p1, 1);
    assert o1.manager == Manager([DeleteTextCommand(p1, [y], true)], [], t0) && o1.buffer == b1;
    LeftOfFirstBackspace(b, row, c);
    SecondBackspace(b1, row, c - 2, y, t0, t1);
    assert ExecuteCommand(o1.manager, o1.buffer, DeleteTextCommand(p, [x], false), t1)
        == Outcome(Manager([DeleteTextCommand(p, [x, y], true)], [], t1), DeleteText(b1, p, 1), None);
  }

  /** The character left of a deleted one stays in place. */
  lemma LeftOfFirstBackspace(b: Buffer, row: nat, c: nat)
    requires row < |b.lines| && 2 <= c <= |b.lines[row]|
    ensures var b1 := DeleteText(b, Position(row, c - 1, 0), 1);
            && row < |b1.lines| && c - 2 < |b1.lines[row]|
            && b1.lines[row][c - 2] == b.lines[row][c - 2]
  {
    DeleteOneInRow(b, row, c - 1);
  }

  /** Two backspaces within the merge window become one history entry, whose
      anchor is the second one's column, and one undo puts both characters
      back. */
  lemma BackspacePairUndoesAsOne(b: Buffer, row: nat, c: nat, t0: int, t1: int)
    requires row < |b.lines| && 2 <= c <= |b.lines[row]| && NoBreak(b.lines[row])
    requires t0 <= t1 < t0 + MergeTimeoutMs
    ensures
      var line := b.lines[row];
      var o1 := ExecuteCommand(NewManager(), b, DeleteTextCommand(Position(row, c - 1, 0), [line[c - 1]], false), t0);
      var o2 := ExecuteCommand(o1.manager, o1.buffer, DeleteTextCommand(Position(row, c - 2, 0), [line[c - 2]], false), t1);
      var u := Undo(o2.manager, o2.buffer);
      && o2.manager.undoStack == [DeleteTextCommand(Position(row, c - 2, 0), [line[c - 2], line[c - 1]], true)]
      && u.buffer.lines == b.lines
      && u.position == Some(Position(row, c - 2, 0))
  {
    var line := b.lines[row];
    var p := Position(row, c - 2, 0);
    BackspacePairRecord(b, row, c, t0, t1);
    BackspacePairReinserts(b, row, c);
    var b2 := DeleteText(DeleteText(b, Position(row, c - 1, 0), 1), p, 1);
    UndoOnly(DeleteTextCommand(p, [line[c - 2], line[c - 1]], true), t1, b2);
  }

  /** Every recorded command carries a well-formed payload. */
  predicate HistoryOk(m: Manager) {
    && (forall i :: 0 <= i < |m.undoStack| ==> PayloadOk(m.undoStack[i]))
    && (forall i :: 0 <= i < |m.redoStack| ==> PayloadOk(m.redoStack[i]))
  }

  /** Recording keeps every payload well-formed, given a well-formed new
      command. */
  lemma ExecuteCommandKeepsHistoryOk(m: Manager, b: Buffer, cmd: EditCommand, now: int)
    requires HistoryOk(m) && PayloadOk(cmd)
    ensures HistoryOk(ExecuteCommand(m, b, cmd, now).manager)
  {
    var s := Execute(cmd, b);
    assert PayloadOk(s.command) by { assert s.command.Payload() == cmd.Payload(); }
    var r := AddToUndoStack(m, s.command, now);
    var n := |m.undoStack|;
    if MergesIntoTop(m, s.command, now) {
      MergePreservesPayloadOk(m.undoStack[n - 1], s.command);
      assert forall i :: 0 <= i < n - 1 ==> r.undoStack[i] == r.undoStack[..n - 1][i];
    }
  }

  /** Undo moves a command to the redo stack with its payload unchanged. */
  lemma UndoKeepsHistoryOk(m: Manager, b: Buffer)
    requires HistoryOk(m)
    ensures HistoryOk(Undo(m, b).manager)
  {
    if CanUndo(m) {
      var top := m.undoStack[|m.undoStack| - 1];
      var s := Commands.Undo(top, b);
      assert s.command.Payload() == top.Payload();
      var o := Undo(m, b).manager;
      assert forall i :: 0 <= i < |o.undoStack| ==> o.undoStack[i] == m.undoStack[i];
      assert forall i :: 0 <= i < |m.redoStack| ==> o.redoStack[i] == m.redoStack[i];
    }
  }

  /** Redo moves a command back to the undo stack with its payload unchanged. */
  lemma RedoKeepsHistoryOk(m: Manager, b: Buffer)
    requires HistoryOk(m)
    ensures HistoryOk(Redo(m, b).manager)
  {
    if CanRedo(m) {
      var top := m.redoStack[|m.redoStack| - 1];
      var s := Commands.Redo(top, b);
      assert s.command.Payload() == top.Payload();
      var o := Redo(m, b).manager;
      assert forall i :: 0 <= i < |o.redoStack| ==> o.redoStack[i] == m.redoStack[i];
      assert forall i :: 0 <= i < |m.undoStack| ==> o.undoStack[i] == m.undoStack[i];
    }
  }

  /** Undo keeps a well-formed buffer well-formed when the history's
      payloads are: it re-inserts break-free text or a single break, or
      deletes. */
  lemma UndoKeepsWellFormed(m: Manager, b: Buffer)
    requires WellFormed(b) && HistoryOk(m)
    ensures WellFormed(Undo(m, b).buffer)
  {
    if CanUndo(m) {
      var top := m.undoStack[|m.undoStack| - 1];
      assert PayloadOk(top);
      if top.executed {
        if top.DeleteTextCommand? {
          InsertPreservesWellFormed(b, top.position, top.deletedText);
        } else {
          DeletePreservesWellFormed(b, top.position, |top.Payload()|);
        }
      }
    }
  }

  /** Redo keeps a well-formed buffer well-formed when the history's
      payloads are. */
  lemma RedoKeepsWellFormed(m: Manager, b: Buffer)
    requires WellFormed(b) && HistoryOk(m)
    ensures WellFormed(Redo(m, b).buffer)
  {
    if CanRedo(m) {
      var top := m.redoStack[|m.redoStack| - 1];
      assert PayloadOk(top);
      if !top.executed {
        if top.DeleteTextCommand? {
          DeletePreservesWellFormed(b, top.position, |top.deletedText|);
        } else {
          InsertPreservesWellFormed(b, top.position, top.Payload());
        }
      }
    }
  }
}
