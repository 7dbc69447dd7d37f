/** The editor's intents: cursor motions with a sticky display column and
    line wrapping, edits routed through the undo/redo history, undo/redo
    re-seating the cursor, and the key dispatch of the editable mode. The
    whole editor is one value; each intent returns the next one. */
module Editor {
  import opened Options
  import opened TextUtils
  import opened Cursor
  import opened Viewport
  import TB = TextBuffer
  import C = Commands
  import H = UndoRedo

  datatype EditorState = EditorState(buffer: TB.Buffer, cursor: Position, viewport: ViewportInfo, history: H.Manager)

  /** The cursor addresses an existing row, a column within it, and caches
      the display column of that column. */
  predicate CursorOk(b: TB.Buffer, p: Position) {
    p.row < |b.lines| && ConsistentWith(p, b.lines[p.row])
  }

  /** What every intent keeps: a well-formed buffer, a consistent cursor and
      well-formed history payloads. */
  predicate Inv(e: EditorState) {
    TB.WellFormed(e.buffer) && CursorOk(e.buffer, e.cursor) && H.HistoryOk(e.history)
  }

  /** `col` is where a vertical move lands for display column `target`: the
      longest prefix of `line` whose width does not exceed `target` (none
      when `target` is 0). */
  predicate StickyColumn(line: string, col: nat, target: nat) {
    && col <= |line|
    && (target == 0 ==> col == 0)
    && (target > 0 ==> StringWidth(line[..col]) <= target)
    && (target > 0 && col < |line| ==> StringWidth(line[..col + 1]) > target)
  }

  /** The column a vertical move lands on in `line`. */
  function StickyTarget(line: string, displayCol: nat): (col: nat)
    ensures StickyColumn(line, col, displayCol)
  {
    var c := CharIndexFromDisplayWidth(line, displayCol);
    if c < |line| then c else |line|
  }

  /** Only one column satisfies the sticky-column description. */
  lemma StickyColumnUnique(line: string, a: nat, b: nat, target: nat)
    requires StickyColumn(line, a, target) && StickyColumn(line, b, target)
    ensures a == b
  {
    if a < b {
      PrefixWidthMonotone(line, a + 1, b);
    } else if b < a {
      PrefixWidthMonotone(line, b + 1, a);
    }
  }

  // ---------------------------------------------------------------------------
  // Motions

  /** `moveCursorUp`: one row up onto the sticky column of the row above. */
  function MoveCursorUp(e: EditorState): (r: EditorState)
    ensures r.buffer == e.buffer && r.history == e.history && r.viewport == e.viewport
    ensures e.cursor.row == 0 ==> r.cursor == e.cursor
    ensures e.cursor.row > 0 ==>
      var line := TB.GetLine(e.buffer, e.cursor.row - 1);
      && r.cursor.row == e.cursor.row - 1
      && StickyColumn(line, r.cursor.col, e.cursor.displayCol)
      && ConsistentWith(r.cursor, line)
    ensures CursorOk(e.buffer, e.cursor) ==> CursorOk(r.buffer, r.cursor)
  {
    if e.cursor.row > 0 then
      var newRow := MoveUp(e.cursor).row;
      var line := TB.GetLine(e.buffer, newRow);
      e.(cursor := SetPositionWithLine(newRow, StickyTarget(line, e.cursor.displayCol), line))
    else e
  }

  /** `moveCursorDown`: one row down, unless on the last row, onto the
      sticky column of the row below. */
  function MoveCursorDown(e: EditorState): (r: EditorState)
    ensures r.buffer == e.buffer && r.history == e.history && r.viewport == e.viewport
    ensures e.cursor.row >= TB.GetLineCount(e.buffer) - 1 ==> r.cursor == e.cursor
    ensures e.cursor.row < TB.GetLineCount(e.buffer) - 1 ==>
      var line := TB.GetLine(e.buffer, e.cursor.row + 1);
      && r.cursor.row == e.cursor.row + 1
      && StickyColumn(line, r.cursor.col, e.cursor.displayCol)
      && ConsistentWith(r.cursor, line)
    ensures TB.Valid(e.buffer) && CursorOk(e.buffer, e.cursor) ==> CursorOk(r.buffer, r.cursor)
  {
    if e.cursor.row < TB.GetLineCount(e.buffer) - 1 then
      var newRow := MoveDown(e.cursor).row;
      var line := TB.GetLine(e.buffer, newRow);
      e.(cursor := SetPositionWithLine(newRow, StickyTarget(line, e.cursor.displayCol), line))
    else e
  }

  /** A sticky column never lies past the target: its prefix is no wider. */
  lemma StickyWithinTarget(line: string, col: nat, target: nat)
    requires StickyColumn(line, col, target)
    ensures StringWidth(line[..col]) <= target
  {
    if target == 0 {
      assert line[..col] == [];
    }
  }

  /** On a row without zero-width characters, the sticky column for a target
      no wider than `line[..c]` is at most `c`. */
  lemma StickyNotPast(line: string, c: nat, k: nat, target: nat)
    requires NoZeroWidth(line) && c <= |line|
    requires StickyColumn(line, k, target) && target <= StringWidth(line[..c])
    ensures k <= c
  {
    if k > c && target > 0 {
      PrefixWidthMonotone(line, c, k);
    }
  }

  /** Moving down and back up returns to the starting row and never lands
      right of the starting column, when the row has no zero-width
      characters (the row below may be shorter, so it can land left of it). */
  lemma DownThenUpReturns(e: EditorState)
    requires TB.Valid(e.buffer) && CursorOk(e.buffer, e.cursor)
    requires e.cursor.row < |e.buffer.lines| - 1
    requires NoZeroWidth(e.buffer.lines[e.cursor.row])
    ensures MoveCursorUp(MoveCursorDown(e)).cursor.row == e.cursor.row
    ensures MoveCursorUp(MoveCursorDown(e)).cursor.col <= e.cursor.col
  {
    var row := e.cursor.row;
    var line := e.buffer.lines[row];
    var below := e.buffer.lines[row + 1];
    var d := MoveCursorDown(e);
    assert TB.GetLine(e.buffer, row + 1) == below;
    assert d.cursor.row == row + 1 && d.buffer == e.buffer;
    assert StickyColumn(below, d.cursor.col, e.cursor.displayCol) && ConsistentWith(d.cursor, below);
    StickyWithinTarget(below, d.cursor.col, e.cursor.displayCol);
    assert d.cursor.displayCol <= StringWidth(line[..e.cursor.col]);
    var u := MoveCursorUp(d);
    assert TB.GetLine(d.buffer, row) == line;
    assert u.cursor.row == row && StickyColumn(line, u.cursor.col, d.cursor.displayCol);
    StickyNotPast(line, e.cursor.col, u.cursor.col, d.cursor.displayCol);
  }

  /** `moveCursorLeft`: one character left; at column 0, to the end of the
      previous row. */
  function MoveCursorLeft(e: EditorState): (r: EditorState)
    ensures r.buffer == e.buffer && r.history == e.history && r.viewport == e.viewport
    ensures e.cursor.col > 0 ==> r.cursor.row == e.cursor.row && r.cursor.col == e.cursor.col - 1
    ensures e.cursor.col == 0 && e.cursor.row > 0 ==>
      r.cursor.row == e.cursor.row - 1 && r.cursor.col == |TB.GetLine(e.buffer, e.cursor.row - 1)|
    ensures e.cursor.col == 0 && e.cursor.row == 0 ==> r.cursor == e.cursor
    ensures CursorOk(e.buffer, e.cursor) ==> CursorOk(r.buffer, r.cursor)
  {
    if e.cursor.col > 0 then
      e.(cursor := MoveLeft(e.cursor, Some(TB.GetLine(e.buffer, e.cursor.row))))
    else if e.cursor.row > 0 then
      var up := MoveUp(e.cursor);
      var line := TB.GetLine(e.buffer, up.row);
      e.(cursor := MoveToLineEnd(up, |line|, Some(line)))
    else e
  }

  /** `moveCursorRight`: one character right; at the end of a row that has a
      successor, to the start of the next row. */
  function MoveCursorRight(e: EditorState): (r: EditorState)
    ensures r.buffer == e.buffer && r.history == e.history && r.viewport == e.viewport
    ensures e.cursor.col < |TB.GetLine(e.buffer, e.cursor.row)| ==>
      r.cursor.row == e.cursor.row && r.cursor.col == e.cursor.col + 1
    ensures e.cursor.col >= |TB.GetLine(e.buffer, e.cursor.row)| && e.cursor.row < TB.GetLineCount(e.buffer) - 1 ==>
      r.cursor == Position(e.cursor.row + 1, 0, 0)
    ensures e.cursor.col >= |TB.GetLine(e.buffer, e.cursor.row)| && e.cursor.row >= TB.GetLineCount(e.buffer) - 1 ==>
      r.cursor == e.cursor
    ensures TB.Valid(e.buffer) && CursorOk(e.buffer, e.cursor) ==> CursorOk(r.buffer, r.cursor)
  {
    var line := TB.GetLine(e.buffer, e.cursor.row);
    if e.cursor.col < |line| then
      e.(cursor := MoveRight(e.cursor, Some(line)))
    else if e.cursor.row < TB.GetLineCount(e.buffer) - 1 then
      e.(cursor := MoveToLineStart(MoveDown(e.cursor)))
    else e
  }

  /** Right then left, and left then right, undo each other on a consistent
      cursor, across row boundaries too. */
  lemma LeftRightInverse(e: EditorState)
    requires TB.Valid(e.buffer) && CursorOk(e.buffer, e.cursor)
    ensures (e.cursor.col > 0 || e.cursor.row > 0) ==> MoveCursorRight(MoveCursorLeft(e)) == e
    ensures (e.cursor.col < |e.buffer.lines[e.cursor.row]| || e.cursor.row < |e.buffer.lines| - 1) ==>
      MoveCursorLeft(MoveCursorRight(e)) == e
  {
    var line := e.buffer.lines[e.cursor.row];
    if e.cursor.col > 0 {
      MoveLeftRightInverse(e.cursor, line);
    } else if e.cursor.row > 0 {
      var above := e.buffer.lines[e.cursor.row - 1];
      assert above[..|above|] == above;
    }
    if e.cursor.col < |line| {
      MoveLeftRightInverse(e.cursor, line);
    } else if e.cursor.row < |e.buffer.lines| - 1 {
      assert line[..|line|] == line;
    }
  }

  /** `moveCursorToLineStart`. */
  function MoveCursorToLineStart(e: EditorState): (r: EditorState)
    ensures r.buffer == e.buffer && r.history == e.history && r.viewport == e.viewport
    ensures r.cursor == Position(e.cursor.row, 0, 0)
    ensures CursorOk(e.buffer, e.cursor) ==> CursorOk(r.buffer, r.cursor)
  {
    e.(cursor := MoveToLineStart(e.cursor))
  }

  /** `moveCursorToLineEnd`: the column after the last character. */
  function MoveCursorToLineEnd(e: EditorState): (r: EditorState)
    ensures r.buffer == e.buffer && r.history == e.history && r.viewport == e.viewport
    ensures r.cursor.row == e.cursor.row && r.cursor.col == |TB.GetLine(e.buffer, e.cursor.row)|
    ensures CursorOk(e.buffer, e.cursor) ==> CursorOk(r.buffer, r.cursor)
  {
    var line := TB.GetLine(e.buffer, e.cursor.row);
    e.(cursor := MoveToLineEnd(e.cursor, |line|, Some(line)))
  }

  /** `pageUp`: up by the viewport height (not below row 0), keeping the
      character column where the row allows. */
  function PageUp(e: EditorState): (r: EditorState)
    ensures r.buffer == e.buffer && r.history == e.history && r.viewport == e.viewport
    ensures r.cursor.row == if e.cursor.row >= e.viewport.height then e.cursor.row - e.viewport.height else 0
    ensures var line := TB.GetLine(e.buffer, r.cursor.row);
            r.cursor.col == (if e.cursor.col <= |line| then e.cursor.col else |line|) && ConsistentWith(r.cursor, line)
    ensures CursorOk(e.buffer, e.cursor) ==> CursorOk(r.buffer, r.cursor)
  {
    var newRow := if e.cursor.row - e.viewport.height > 0 then e.cursor.row - e.viewport.height else 0;
    var line := TB.GetLine(e.buffer, newRow);
    var newCol := if e.cursor.col < |line| then e.cursor.col else |line|;
    e.(cursor := SetPositionWithLine(newRow, newCol, line))
  }

  /** `pageDown`: down by the viewport height (not past the last row),
      keeping the character column where the row allows. The buffer always
      holds a line, so the target row is never negative. */
  function PageDown(e: EditorState): (r: EditorState)
    requires TB.Valid(e.buffer)
    ensures r.buffer == e.buffer && r.history == e.history && r.viewport == e.viewport
    ensures r.cursor.row == if e.cursor.row + e.viewport.height < |e.buffer.lines| - 1
                            then e.cursor.row + e.viewport.height else |e.buffer.lines| - 1
    ensures var line := e.buffer.lines[r.cursor.row];
            r.cursor.col == (if e.cursor.col <= |line| then e.cursor.col else |line|) && ConsistentWith(r.cursor, line)
    ensures CursorOk(r.buffer, r.cursor)
  {
    var last := TB.GetLineCount(e.buffer) - 1;
    var newRow := if last < e.cursor.row + e.viewport.height then last else e.cursor.row + e.viewport.height;
    var line := TB.GetLine(e.buffer, newRow);
    var newCol := if e.cursor.col < |line| then e.cursor.col else |line|;
    e.(cursor := SetPositionWithLine(newRow, newCol, line))
  }

  // ---------------------------------------------------------------------------
  // Edits

  /** `insertText`: record and execute an insert at the cursor, then put the
      cursor after the inserted text. (The key handler only passes single
      printable characters, never a line break.) */
  function InsertText(e: EditorState, text: string, now: int): (r: EditorState)
    ensures r.viewport == e.viewport
    ensures H.CanUndo(r.history) && !H.CanRedo(r.history)
    ensures CursorOk(e.buffer, e.cursor) && text != "\n" ==>
      var row := e.cursor.row;
      var line := e.buffer.lines[row];
      && r.buffer.lines == e.buffer.lines[row := line[..e.cursor.col] + text + line[e.cursor.col..]]
      && r.cursor.row == row && r.cursor.col == e.cursor.col + |text|
      && CursorOk(r.buffer, r.cursor)
  {
    var position := e.cursor;
    var o := H.ExecuteCommand(e.history, e.buffer, C.InsertTextCommand(position, text, false), now);
    var updatedLine := TB.GetLine(o.buffer, position.row);
    var r := EditorState(o.buffer, SetPositionWithLine(position.row, position.col + |text|, updatedLine), e.viewport, o.manager);
    assert CursorOk(e.buffer, e.cursor) && text != "\n" ==>
      r.buffer.lines == e.buffer.lines[position.row := e.buffer.lines[position.row][..position.col] + text + e.buffer.lines[position.row][position.col..]]
    by {
      if CursorOk(e.buffer, e.cursor) && text != "\n" {
        assert TB.PadTo(e.buffer.lines, position.row) == e.buffer.lines;
      }
    }
    r
  }

  /** `backspace`: inside a row, delete the character before the cursor and
      step back over it; at column 0 of a later row, delete the line break
      before it, joining the row onto the previous one, and move to the join
      point. At the very start nothing happens. */
  function Backspace(e: EditorState, now: int): (r: EditorState)
    ensures r.viewport == e.viewport
    ensures e.cursor.col == 0 && e.cursor.row == 0 ==> r == e
    ensures e.cursor.col > 0 || e.cursor.row > 0 ==> H.CanUndo(r.history) && !H.CanRedo(r.history)
  {
    var position := e.cursor;
    if position.col > 0 then
      var deletePosition := Position(position.row, position.col - 1, 0);
      var deletedText := TB.GetText(e.buffer, deletePosition, 1);
      var o := H.ExecuteCommand(e.history, e.buffer, C.DeleteTextCommand(deletePosition, deletedText, false), now);
      var updatedLine := TB.GetLine(o.buffer, position.row);
      EditorState(o.buffer, SetPositionWithLine(position.row, position.col - 1, updatedLine), e.viewport, o.manager)
    else if position.row > 0 then
      var previousLineLength := TB.GetLineLength(e.buffer, position.row - 1);
      var deletePosition := Position(position.row - 1, previousLineLength, 0);
      var o := H.ExecuteCommand(e.history, e.buffer, C.DeleteTextCommand(deletePosition, "\n", false), now);
      var previousLine := TB.GetLine(o.buffer, position.row - 1);
      EditorState(o.buffer, SetPositionWithLine(position.row - 1, previousLineLength, previousLine), e.viewport, o.manager)
    else e
  }

  /** Backspace inside a row removes the character before the cursor and
      steps back over it. */
  lemma BackspaceInsideRow(e: EditorState, now: int)
    requires CursorOk(e.buffer, e.cursor) && e.cursor.col > 0
    ensures var r := Backspace(e, now);
            var row := e.cursor.row;
            var line := e.buffer.lines[row];
            && r.buffer.lines == e.buffer.lines[row := line[..e.cursor.col - 1] + line[e.cursor.col..]]
            && r.cursor.row == row && r.cursor.col == e.cursor.col - 1
            && CursorOk(r.buffer, r.cursor)
  {
    TB.DeleteOneInRow(e.buffer, e.cursor.row, e.cursor.col - 1);
  }

  /** Backspace at column 0 of a later row deletes the line break before it:
      the row joins the previous one and the cursor lands at the join point. */
  lemma BackspaceJoinsRows(e: EditorState, now: int)
    requires CursorOk(e.buffer, e.cursor) && e.cursor.col == 0 && e.cursor.row > 0
    ensures var r := Backspace(e, now);
            var row := e.cursor.row;
            var ls := e.buffer.lines;
            && r.buffer.lines == ls[..row - 1] + [ls[row - 1] + ls[row]] + ls[row + 1..]
            && r.cursor.row == row - 1 && r.cursor.col == |ls[row - 1]|
            && CursorOk(r.buffer, r.cursor)
  {
    var row := e.cursor.row;
    var ls := e.buffer.lines;
    TB.JoinWithNext(e.buffer, Position(row - 1, |ls[row - 1]|, 0));
    var r := Backspace(e, now);
    assert r.buffer.lines[row - 1] == ls[row - 1] + ls[row];
    assert r.buffer.lines[row - 1][..|ls[row - 1]|] == ls[row - 1];
  }

  /** `delete`: inside a row, delete the character under the cursor; at the
      end of a row that has a successor, join the next row on. The cursor
      keeps its row and column. At the very end nothing happens. */
  function Delete(e: EditorState, now: int): (r: EditorState)
    ensures r.viewport == e.viewport
    ensures e.cursor.col >= |TB.GetLine(e.buffer, e.cursor.row)| && e.cursor.row >= TB.GetLineCount(e.buffer) - 1 ==> r == e
    ensures CursorOk(e.buffer, e.cursor) && e.cursor.col < |e.buffer.lines[e.cursor.row]| ==>
      var row := e.cursor.row;
      var line := e.buffer.lines[row];
      && r.buffer.lines == e.buffer.lines[row := line[..e.cursor.col] + line[e.cursor.col + 1..]]
      && r.cursor.row == row && r.cursor.col == e.cursor.col
      && CursorOk(r.buffer, r.cursor)
    ensures TB.Valid(e.buffer) && CursorOk(e.buffer, e.cursor) && e.cursor.col == |e.buffer.lines[e.cursor.row]|
            && e.cursor.row < |e.buffer.lines| - 1 ==>
      var row := e.cursor.row;
      var ls := e.buffer.lines;
      && r.buffer.lines == ls[..row] + [ls[row] + ls[row + 1]] + ls[row + 2..]
      && r.cursor.row == row && r.cursor.col == e.cursor.col
      && CursorOk(r.buffer, r.cursor)
  {
    var position := e.cursor;
    var line := TB.GetLine(e.buffer, position.row);
    if position.col < |line| then
      var deletedText := TB.GetText(e.buffer, position, 1);
      var o := H.ExecuteCommand(e.history, e.buffer, C.DeleteTextCommand(position, deletedText, false), now);
      var updatedLine := TB.GetLine(o.buffer, position.row);
      EditorState(o.buffer, SetPositionWithLine(position.row, position.col, updatedLine), e.viewport, o.manager)
    else if position.row < TB.GetLineCount(e.buffer) - 1 then
      var o := H.ExecuteCommand(e.history, e.buffer, C.DeleteTextCommand(position, "\n", false), now);
      var updatedLine := TB.GetLine(o.buffer, position.row);
      EditorState(o.buffer, SetPositionWithLine(position.row, position.col, updatedLine), e.viewport, o.manager)
    else e
  }

  /** `insertNewline`: split the row at the cursor and go to the start of
      the new row. */
  function InsertNewline(e: EditorState, now: int): (r: EditorState)
    ensures r.viewport == e.viewport
    ensures H.CanUndo(r.history) && !H.CanRedo(r.history)
    ensures r.cursor == Position(e.cursor.row + 1, 0, 0)
    ensures CursorOk(e.buffer, e.cursor) ==>
      var row := e.cursor.row;
      var ls := e.buffer.lines;
      && r.buffer.lines == ls[..row] + [ls[row][..e.cursor.col], ls[row][e.cursor.col..]] + ls[row + 1..]
      && CursorOk(r.buffer, r.cursor)
  {
    var position := e.cursor;
    var o := H.ExecuteCommand(e.history, e.buffer, C.InsertLineCommand(position, false), now);
    EditorState(o.buffer, SetPosition(position.row + 1, 0, Some(0)), e.viewport, o.manager)
  }

  // ---------------------------------------------------------------------------
  // Undo and redo

  /** Where the editor puts the cursor for a position the history reports:
      that row, the column clamped to the row's length, the display column
      recomputed. The source also clamps the row, but then overwrites the
      clamped cursor with the unclamped row, so the row is used as reported. */
  function Reseat(b: TB.Buffer, p: Position): (q: Position)
    ensures var line := TB.GetLine(b, p.row);
            && q.row == p.row
            && q.col == (if p.col <= |line| then p.col else |line|)
            && ConsistentWith(q, line)
  {
    var line := TB.GetLine(b, p.row);
    if p.col > |line| then SetPositionWithLine(p.row, |line|, line)
    else SetPositionWithLine(p.row, p.col, line)
  }

  /** `undo`: revert the latest history entry and re-seat the cursor where
      it reports; with nothing to undo, nothing changes. */
  function Undo(e: EditorState): (r: EditorState)
    ensures !H.CanUndo(e.history) ==> r == e
    ensures H.CanUndo(e.history) ==>
      var o := H.Undo(e.history, e.buffer);
      && r.buffer == o.buffer && r.history == o.manager && r.viewport == e.viewport
      && r.cursor == Reseat(o.buffer, o.position.value)
      && r.cursor.row == o.position.value.row
      && ConsistentWith(r.cursor, TB.GetLine(r.buffer, r.cursor.row))
  {
    var o := H.Undo(e.history, e.buffer);
    if o.position.Some? then EditorState(o.buffer, Reseat(o.buffer, o.position.value), e.viewport, o.manager)
    else e
  }

  /** `redo`: re-apply the latest undone entry and re-seat the cursor where
      it reports; with nothing to redo, nothing changes. */
  function Redo(e: EditorState): (r: EditorState)
    ensures !H.CanRedo(e.history) ==> r == e
    ensures H.CanRedo(e.history) ==>
      var o := H.Redo(e.history, e.buffer);
      && r.buffer == o.buffer && r.history == o.manager && r.viewport == e.viewport
      && r.cursor == Reseat(o.buffer, o.position.value)
      && r.cursor.row == o.position.value.row
      && ConsistentWith(r.cursor, TB.GetLine(r.buffer, r.cursor.row))
  {
    var o := H.Redo(e.history, e.buffer);
    if o.position.Some? then EditorState(o.buffer, Reseat(o.buffer, o.position.value), e.viewport, o.manager)
    else e
  }

  // ---------------------------------------------------------------------------
  // Keys

  /** The default branch's filter: exactly one character, not a control
      character. */
  predicate IsPrintable(ch: string) {
    |ch| == 1 && ch[0] as int >= 32
  }

  /** A printable key is a one-character text free of line breaks. */
  lemma PrintableIsOneCharacter(ch: string)
    requires IsPrintable(ch)
    ensures TB.NoBreak(ch) && ch != "\n" && |ch| == 1
  {
    assert ch == [ch[0]];
  }

  /** `update`'s model-side effect: scroll the viewport so the cursor shows. */
  function Update(e: EditorState): (r: EditorState)
    ensures r.buffer == e.buffer && r.cursor == e.cursor && r.history == e.history
    ensures r.viewport.height == e.viewport.height && r.viewport.width == e.viewport.width
    ensures e.viewport.height >= 1 && e.cursor.row < TB.GetLineCount(e.buffer) ==>
      r.viewport.startRow <= e.cursor.row < r.viewport.startRow + r.viewport.height
    ensures e.viewport.width >= 1 ==>
      r.viewport.startCol <= e.cursor.displayCol < r.viewport.startCol + r.viewport.width
  {
    e.(viewport := EnsureCursorVisible(e.viewport, e.cursor, e.buffer))
  }

  /** The keys that only move the cursor. */
  predicate IsMotionKey(key: string) {
    key in {"up", "down", "left", "right", "home", "end", "pageup", "pagedown"}
  }

  /** The motion a motion key names. */
  function Motion(e: EditorState, key: string): EditorState
    requires TB.Valid(e.buffer) && IsMotionKey(key)
  {
    if key == "up" then MoveCursorUp(e)
    else if key == "down" then MoveCursorDown(e)
    else if key == "left" then MoveCursorLeft(e)
    else if key == "right" then MoveCursorRight(e)
    else if key == "home" then MoveCursorToLineStart(e)
    else if key == "end" then MoveCursorToLineEnd(e)
    else if key == "pageup" then PageUp(e)
    else PageDown(e)
  }

  /** The edit an editing key names; saving, quitting and unbound keys
      leave the state as is (saving and quitting act outside the model). */
  function Edit(e: EditorState, key: string, ch: string, now: int): EditorState {
    if key == "backspace" then Backspace(e, now)
    else if key == "delete" then Delete(e, now)
    else if key == "enter" then InsertNewline(e, now)
    else if key == "C-s" || key == "C-c" then e
    else if IsPrintable(ch) then InsertText(e, ch, now)
    else e
  }

  /** The intent a key names in the editable mode, before the screen update. */
  function Dispatch(e: EditorState, key: string, ch: string, now: int): EditorState
    requires TB.Valid(e.buffer)
  {
    if IsMotionKey(key) then Motion(e, key)
    else if key == "C-z" then Undo(e)
    else if key == "C-y" then Redo(e)
    else Edit(e, key, ch, now)
  }

  /** `handleEditableKeyPress`: dispatch, then keep the cursor in view. */
  function HandleEditableKey(e: EditorState, key: string, ch: string, now: int): (r: EditorState)
    requires TB.Valid(e.buffer)
    ensures r.buffer == Dispatch(e, key, ch, now).buffer && r.cursor == Dispatch(e, key, ch, now).cursor
    ensures r.viewport.width >= 1 ==>
      r.viewport.startCol <= r.cursor.displayCol < r.viewport.startCol + r.viewport.width
    ensures r.viewport.height >= 1 && r.cursor.row < TB.GetLineCount(r.buffer) ==>
      r.viewport.startRow <= r.cursor.row < r.viewport.startRow + r.viewport.height
  {
    Update(Dispatch(e, key, ch, now))
  }

  /** Every editable key but undo and redo keeps the invariant, and afterwards
      the cursor's row is inside the window. */
  lemma HandleEditableKeyKeepsInv(e: EditorState, key: string, ch: string, now: int)
    requires Inv(e) && key != "C-z" && key != "C-y"
    ensures var r := HandleEditableKey(e, key, ch, now);
            && Inv(r)
            && (r.viewport.height >= 1 ==> r.viewport.startRow <= r.cursor.row < r.viewport.startRow + r.viewport.height)
  {
    DispatchKeepsInv(e, key, ch, now);
  }

  // ---------------------------------------------------------------------------
  // The invariant

  /** Recording a well-formed command keeps the buffer and history
      well-formed. */
  lemma ExecuteKeepsWellFormed(m: H.Manager, b: TB.Buffer, cmd: C.EditCommand, now: int)
    requires TB.WellFormed(b) && H.HistoryOk(m) && C.PayloadOk(cmd)
    ensures TB.WellFormed(H.ExecuteCommand(m, b, cmd, now).buffer)
    ensures H.HistoryOk(H.ExecuteCommand(m, b, cmd, now).manager)
  {
    H.ExecuteCommandKeepsHistoryOk(m, b, cmd, now);
    if !cmd.executed {
      if cmd.DeleteTextCommand? {
        TB.DeletePreservesWellFormed(b, cmd.position, |cmd.deletedText|);
      } else {
        TB.InsertPreservesWellFormed(b, cmd.position, cmd.Payload());
      }
    }
  }

  /** Typing a printable character keeps the invariant. */
  lemma InsertTextKeepsInv(e: EditorState, ch: string, now: int)
    requires Inv(e) && IsPrintable(ch)
    ensures Inv(InsertText(e, ch, now))
  {
    PrintableIsOneCharacter(ch);
    ExecuteKeepsWellFormed(e.history, e.buffer, C.InsertTextCommand(e.cursor, ch, false), now);
  }

  /** Splitting a row keeps the invariant. */
  lemma InsertNewlineKeepsInv(e: EditorState, now: int)
    requires Inv(e)
    ensures Inv(InsertNewline(e, now))
  {
    ExecuteKeepsWellFormed(e.history, e.buffer, C.InsertLineCommand(e.cursor, false), now);
  }

  /** Backspace keeps the invariant, on both of its paths. */
  lemma BackspaceKeepsInv(e: EditorState, now: int)
    requires Inv(e)
    ensures Inv(Backspace(e, now))
  {
    var p := e.cursor;
    if p.col > 0 {
      var line := e.buffer.lines[p.row];
      BackspaceInsideRow(e, now);
      TB.DeleteOneInRow(e.buffer, p.row, p.col - 1);
      assert line[p.col - 1] in line;
      ExecuteKeepsWellFormed(e.history, e.buffer, C.DeleteTextCommand(Position(p.row, p.col - 1, 0), [line[p.col - 1]], false), now);
    } else if p.row > 0 {
      BackspaceJoinsRows(e, now);
      ExecuteKeepsWellFormed(e.history, e.buffer, C.DeleteTextCommand(Position(p.row - 1, |e.buffer.lines[p.row - 1]|, 0), "\n", false), now);
    }
  }

  /** A forward delete keeps the invariant, on both of its paths. */
  lemma DeleteKeepsInv(e: EditorState, now: int)
    requires Inv(e)
    ensures Inv(Delete(e, now))
  {
    var p := e.cursor;
    var line := e.buffer.lines[p.row];
    if p.col < |line| {
      TB.DeleteOneInRow(e.buffer, p.row, p.col);
      assert line[p.col] in line;
      assert TB.GetText(e.buffer, p, 1) == TB.GetText(e.buffer, Position(p.row, p.col, 0), 1);
      ExecuteKeepsWellFormed(e.history, e.buffer, C.DeleteTextCommand(p, [line[p.col]], false), now);
    } else if p.row < |e.buffer.lines| - 1 {
      ExecuteKeepsWellFormed(e.history, e.buffer, C.DeleteTextCommand(p, "\n", false), now);
    }
  }

  /** The motions move only the cursor, and keep it consistent. */
  lemma MotionsKeepInv(e: EditorState)
    requires Inv(e)
    ensures Inv(MoveCursorUp(e)) && Inv(MoveCursorDown(e))
    ensures Inv(MoveCursorLeft(e)) && Inv(MoveCursorRight(e))
    ensures Inv(MoveCursorToLineStart(e)) && Inv(MoveCursorToLineEnd(e))
    ensures Inv(PageUp(e)) && Inv(PageDown(e))
  {
  }

  /** Every motion key keeps the invariant. */
  lemma MotionKeepsInv(e: EditorState, key: string)
    requires Inv(e) && IsMotionKey(key)
    ensures Inv(Motion(e, key))
  {
    MotionsKeepInv(e);
  }

  /** Every editing key keeps the invariant. */
  lemma EditKeepsInv(e: EditorState, key: string, ch: string, now: int)
    requires Inv(e)
    ensures Inv(Edit(e, key, ch, now))
  {
    if key == "backspace" {
      BackspaceKeepsInv(e, now);
    } else if key == "delete" {
      DeleteKeepsInv(e, now);
    } else if key == "enter" {
      InsertNewlineKeepsInv(e, now);
    } else if key != "C-s" && key != "C-c" && IsPrintable(ch) {
      InsertTextKeepsInv(e, ch, now);
    }
  }

  /** Every editable key other than undo and redo keeps the invariant. */
  lemma DispatchKeepsInv(e: EditorState, key: string, ch: string, now: int)
    requires Inv(e) && key != "C-z" && key != "C-y"
    ensures Inv(Dispatch(e, key, ch, now))
  {
    if IsMotionKey(key) {
      MotionKeepsInv(e, key);
    } else {
      EditKeepsInv(e, key, ch, now);
    }
  }

  /** Undo keeps the buffer and history well-formed, and keeps the cursor
      consistent whenever the reported row exists. */
  lemma UndoKeepsInv(e: EditorState)
    requires Inv(e)
    ensures var r := Undo(e);
            TB.WellFormed(r.buffer) && H.HistoryOk(r.history)
            && (r.cursor.row < |r.buffer.lines| ==> Inv(r))
  {
    H.UndoKeepsHistoryOk(e.history, e.buffer);
    H.UndoKeepsWellFormed(e.history, e.buffer);
  }

  /** Redo keeps the buffer and history well-formed, and keeps the cursor
      consistent whenever the reported row exists. */
  lemma RedoKeepsInv(e: EditorState)
    requires Inv(e)
    ensures var r := Redo(e);
            TB.WellFormed(r.buffer) && H.HistoryOk(r.history)
            && (r.cursor.row < |r.buffer.lines| ==> Inv(r))
  {
    H.RedoKeepsHistoryOk(e.history, e.buffer);
    H.RedoKeepsWellFormed(e.history, e.buffer);
  }

  // ---------------------------------------------------------------------------
  // Edits and their undo

  /** A fresh entry: the edit arrives after the merge window, and the stack
      has room, so it is pushed on its own. */
  predicate Fresh(e: EditorState, now: int) {
    now - e.history.lastCommandTime >= H.MergeTimeoutMs && |e.history.undoStack| < H.MaxUndoLevels
  }

  /** A consistent cursor re-seated on its own row stays where it is. */
  lemma ReseatKeepsConsistent(b: TB.Buffer, p: Position)
    requires CursorOk(b, p)
    ensures Reseat(b, p) == p
  {
  }

  /** Undo right after a fresh edit retracts that edit's entry and re-seats
      the cursor at its anchor, wherever the edit left the cursor. */
  lemma UndoAfterFreshEdit(e: EditorState, cmd: C.EditCommand, now: int, cur: Position)
    requires Fresh(e, now)
    ensures var o := H.ExecuteCommand(e.history, e.buffer, cmd, now);
            var s := C.Execute(cmd, e.buffer);
            var u := Undo(EditorState(o.buffer, cur, e.viewport, o.manager));
            && u.history.undoStack == e.history.undoStack
            && u.buffer == C.Undo(s.command, s.buffer).buffer
            && u.cursor == Reseat(u.buffer, cmd.position)
  {
    H.UndoRetractsPush(e.history, e.buffer, cmd, now);
  }

  /** Re-seating on a buffer with the original lines puts a consistent
      cursor back where it was. */
  lemma ReseatOnSameLines(b: TB.Buffer, b': TB.Buffer, p: Position)
    requires CursorOk(b, p) && b'.lines == b.lines
    ensures Reseat(b', p) == p
  {
    assert TB.GetLine(b', p.row) == b.lines[p.row];
  }

  /** Typing a character after a pause and undoing it restores the lines,
      the cursor and the undo stack. */
  lemma TypeThenUndoRestores(e: EditorState, ch: string, now: int)
    requires Inv(e) && IsPrintable(ch) && Fresh(e, now)
    ensures var u := Undo(InsertText(e, ch, now));
            && u.buffer.lines == e.buffer.lines
            && u.cursor == e.cursor
            && u.history.undoStack == e.history.undoStack
  {
    var p := e.cursor;
    var cmd := C.InsertTextCommand(p, ch, false);
    var t := InsertText(e, ch, now);
    var o := H.ExecuteCommand(e.history, e.buffer, cmd, now);
    assert t == EditorState(o.buffer, t.cursor, e.viewport, o.manager);
    UndoAfterFreshEdit(e, cmd, now, t.cursor);
    TB.InsertThenDeleteRestores(e.buffer, p, ch);
    ReseatOnSameLines(e.buffer, Undo(t).buffer, p);
  }

  /** Splitting a row after a pause and undoing it restores the lines, the
      cursor and the undo stack. */
  lemma NewlineThenUndoRestores(e: EditorState, now: int)
    requires Inv(e) && Fresh(e, now)
    ensures var u := Undo(InsertNewline(e, now));
            && u.buffer.lines == e.buffer.lines
            && u.cursor == e.cursor
            && u.history.undoStack == e.history.undoStack
  {
    var p := e.cursor;
    var cmd := C.InsertLineCommand(p, false);
    var t := InsertNewline(e, now);
    var o := H.ExecuteCommand(e.history, e.buffer, cmd, now);
    assert t == EditorState(o.buffer, t.cursor, e.viewport, o.manager);
    UndoAfterFreshEdit(e, cmd, now, t.cursor);
    TB.InsertThenDeleteRestores(e.buffer, p, "\n");
    ReseatOnSameLines(e.buffer, Undo(t).buffer, p);
  }

  /** The command a forward delete records: the delete at the cursor of
      whatever `getText` reads there. */
  lemma DeleteRecords(e: EditorState, now: int)
    requires Inv(e)
    requires e.cursor.col < |e.buffer.lines[e.cursor.row]| || e.cursor.row < |e.buffer.lines| - 1
    ensures var cmd := C.DeleteTextCommand(e.cursor, TB.GetText(e.buffer, e.cursor, 1), false);
            var o := H.ExecuteCommand(e.history, e.buffer, cmd, now);
            var d := Delete(e, now);
            d == EditorState(o.buffer, d.cursor, e.viewport, o.manager)
  {
    var p := e.cursor;
    if p.col >= |e.buffer.lines[p.row]| {
      assert TB.JoinsNext(e.buffer, p, 1);
    }
  }

  /** A forward delete after a pause, undone, restores the lines, the
      cursor and the undo stack. */
  lemma DeleteThenUndoRestores(e: EditorState, now: int)
    requires Inv(e) && Fresh(e, now)
    requires e.cursor.col < |e.buffer.lines[e.cursor.row]| || e.cursor.row < |e.buffer.lines| - 1
    ensures var u := Undo(Delete(e, now));
            && u.buffer.lines == e.buffer.lines
            && u.cursor == e.cursor
            && u.history.undoStack == e.history.undoStack
  {
    var p := e.cursor;
    var cmd := C.DeleteTextCommand(p, TB.GetText(e.buffer, p, 1), false);
    var d := Delete(e, now);
    DeleteRecords(e, now);
    UndoAfterFreshEdit(e, cmd, now, d.cursor);
    TB.DeleteThenInsertRestores(e.buffer, p, 1);
    ReseatOnSameLines(e.buffer, Undo(d).buffer, p);
  }

  /** A backspace inside a row after a pause, undone, restores the lines and
      the undo stack, but leaves the cursor one column left of where it was:
      the history reports the deleted character's column. */
  lemma BackspaceThenUndoLandsBefore(e: EditorState, now: int)
    requires Inv(e) && Fresh(e, now) && e.cursor.col > 0
    ensures var u := Undo(Backspace(e, now));
            && u.buffer.lines == e.buffer.lines
            && u.cursor.row == e.cursor.row && u.cursor.col == e.cursor.col - 1
            && u.history.undoStack == e.history.undoStack
  {
    var p := e.cursor;
    var dp := Position(p.row, p.col - 1, 0);
    var cmd := C.DeleteTextCommand(dp, TB.GetText(e.buffer, dp, 1), false);
    var d := Backspace(e, now);
    var o := H.ExecuteCommand(e.history, e.buffer, cmd, now);
    assert d == EditorState(o.buffer, d.cursor, e.viewport, o.manager);
    UndoAfterFreshEdit(e, cmd, now, d.cursor);
    TB.DeleteThenInsertRestores(e.buffer, dp, 1);
  }

  // ---------------------------------------------------------------------------
  // Worked examples

  /** Enter at the end of "ab" in ["ab", "cd"] opens an empty row between
      them and puts the cursor at its start. */
  lemma EnterAtRowEnd(v: ViewportInfo)
    ensures var e := EditorState(TB.Buffer(["ab", "cd"], 2, false), Position(0, 2, 2), v, H.NewManager());
            var r := InsertNewline(e, 0);
            r.buffer.lines == ["ab", "", "cd"] && r.cursor == Position(1, 0, 0)
  {
    var e := EditorState(TB.Buffer(["ab", "cd"], 2, false), Position(0, 2, 2), v, H.NewManager());
    assert CursorOk(e.buffer, e.cursor) by {
      assert "ab"[..2] == "ab";
      assert StringWidth("ab") == 2 by { assert "ab"[1..] == "b"; }
    }
    var ls := e.buffer.lines;
    assert ls[..0] + [ls[0][..2], ls[0][2..]] + ls[1..] == ["ab", "", "cd"];
  }

  /** Backspace at the start of "cd" in ["ab", "cd"] joins the rows into
      "abcd" and puts the cursor at the join point. */
  lemma BackspaceAtRowStart(v: ViewportInfo)
    ensures var e := EditorState(TB.Buffer(["ab", "cd"], 2, false), Position(1, 0, 0), v, H.NewManager());
            var r := Backspace(e, 0);
            r.buffer.lines == ["abcd"] && r.cursor == Position(0, 2, 2)
  {
    var e := EditorState(TB.Buffer(["ab", "cd"], 2, false), Position(1, 0, 0), v, H.NewManager());
    var ls := e.buffer.lines;
    assert CursorOk(e.buffer, e.cursor);
    assert ls[0] + ls[1] == "abcd";
    assert ls[..0] + [ls[0] + ls[1]] + ls[2..] == ["abcd"];
    BackspaceJoinsRows(e, 0);
    var r := Backspace(e, 0);
    assert r.buffer.lines[0][..2] == "ab";
    assert StringWidth("ab") == 2 by { assert "ab"[1..] == "b"; }
  }

  /** The example's first keystroke: "a" typed into an empty buffer. */
  lemma TypeFirstOfPair(v: ViewportInfo)
    ensures InsertText(EditorState(TB.Buffer([""], 1, false), Position(0, 0, 0), v, H.NewManager()), "a", 0)
         == EditorState(TB.Buffer(["a"], 1, true), Position(0, 1, 1), v,
                        H.Manager([C.InsertTextCommand(Position(0, 0, 0), "a", true)], [], 0))
  {
    var e := EditorState(TB.Buffer([""], 1, false), Position(0, 0, 0), v, H.NewManager());
    assert CursorOk(e.buffer, e.cursor);
    H.RecordOnFresh(e.buffer, C.InsertTextCommand(Position(0, 0, 0), "a", false), 0);
    assert ""[..0] + "a" + ""[0..] == "a";
    assert [""][0 := "a"] == ["a"];
    assert "a"[..1] == "a";
  }

  /** The example's second keystroke: "b" typed just after "a" within the
      merge window, coalesced into one entry. */
  lemma TypeSecondOfPair(v: ViewportInfo)
    ensures InsertText(EditorState(TB.Buffer(["a"], 1, true), Position(0, 1, 1), v,
                                   H.Manager([C.InsertTextCommand(Position(0, 0, 0), "a", true)], [], 0)), "b", 1)
         == EditorState(TB.Buffer(["ab"], 1, true), Position(0, 2, 2), v,
                        H.Manager([C.InsertTextCommand(Position(0, 0, 0), "ab", true)], [], 1))
  {
    var top := C.InsertTextCommand(Position(0, 0, 0), "a", true);
    var e := EditorState(TB.Buffer(["a"], 1, true), Position(0, 1, 1), v, H.Manager([top], [], 0));
    assert "a"[..1] == "a";
    assert CursorOk(e.buffer, e.cursor);
    var cmd := C.InsertTextCommand(Position(0, 1, 1), "b", false);
    assert H.MergesIntoTop(e.history, cmd, 1);
    H.RecordMergeIntoOnly(top, 0, e.buffer, cmd, 1);
    assert C.Merge(top, C.InsertTextCommand(Position(0, 1, 1), "b", true)) == C.InsertTextCommand(Position(0, 0, 0), "ab", true);
    assert "a"[..1] + "b" + "a"[1..] == "ab";
    assert ["a"][0 := "ab"] == ["ab"];
    assert "ab"[..2] == "ab";
    assert StringWidth("ab") == 2 by { assert "ab"[1..] == "b"; }
  }

  /** Undoing the coalesced pair empties the row again. */
  lemma UndoPair(v: ViewportInfo)
    ensures Undo(EditorState(TB.Buffer(["ab"], 1, true), Position(0, 2, 2), v,
                             H.Manager([C.InsertTextCommand(Position(0, 0, 0), "ab", true)], [], 1)))
         == EditorState(TB.Buffer([""], 1, true), Position(0, 0, 0), v,
                        H.Manager([], [C.InsertTextCommand(Position(0, 0, 0), "ab", false)], 1))
  {
    var top := C.InsertTextCommand(Position(0, 0, 0), "ab", true);
    var b := TB.Buffer(["ab"], 1, true);
    H.UndoOnly(top, 1, b);
    assert !TB.JoinsNext(b, Position(0, 0, 0), 2);
    assert "ab"[..0] + "ab"[2..] == "";
    assert ["ab"][0 := ""] == [""];
  }

  /** Redoing the pair puts both characters back and the cursor one column
      past the anchor. */
  lemma RedoPair(v: ViewportInfo)
    ensures Redo(EditorState(TB.Buffer([""], 1, true), Position(0, 0, 0), v,
                             H.Manager([], [C.InsertTextCommand(Position(0, 0, 0), "ab", false)], 1)))
         == EditorState(TB.Buffer(["ab"], 1, true), Position(0, 1, 1), v,
                        H.Manager([C.InsertTextCommand(Position(0, 0, 0), "ab", true)], [], 1))
  {
    assert ""[..0] + "ab" + ""[0..] == "ab";
    assert [""][0 := "ab"] == ["ab"];
    assert "ab"[..1] == "a";
  }

  /** Redo reports one column past the anchor of an insert whatever its
      length: typing "a" then "b" within the merge window, undoing and
      redoing leaves the cursor between the two characters. */
  lemma RedoOfTypedPairLandsBetween(v: ViewportInfo)
    ensures var e := EditorState(TB.Buffer([""], 1, false), Position(0, 0, 0), v, H.NewManager());
            var r := Redo(Undo(InsertText(InsertText(e, "a", 0), "b", 1)));
            r.buffer.lines == ["ab"] && r.cursor == Position(0, 1, 1)
  {
    TypeFirstOfPair(v);
    TypeSecondOfPair(v);
    UndoPair(v);
    RedoPair(v);
  }
}
