/** The cursor: a position held in three coordinate spaces at once, row,
    character index within the row, and display column, the last of which is
    a cache of the width of the line before the character index. */
module Cursor {
  import opened Options
  import opened TextUtils

  datatype Position = Position(row: nat, col: nat, displayCol: nat)

  /** The source's `if (line)`: an optional line counts as supplied only when
      it is present and non-empty. */
  predicate Supplied(line: Option<string>) {
    line.Some? && |line.value| > 0
  }

  /** The cached display column is the one the line content gives for `col`. */
  predicate ConsistentWith(p: Position, line: string) {
    p.col <= |line| && p.displayCol == StringWidth(line[..p.col])
  }

  /** `setPosition`: row and column verbatim, a missing display column read as 0. */
  function SetPosition(row: nat, col: nat, displayCol: Option<nat>): (p: Position)
    ensures p.row == row && p.col == col
    ensures displayCol.None? ==> p.displayCol == 0
    ensures displayCol.Some? ==> p.displayCol == displayCol.value
  {
    Position(row, col, displayCol.GetOr(0))
  }

  /** `setPositionWithLine`: the display column is derived from the line. */
  function SetPositionWithLine(row: nat, col: nat, line: string): (p: Position)
    ensures p.row == row && p.col == col
    ensures col <= |line| ==> ConsistentWith(p, line)
    ensures col > |line| ==> p.displayCol == StringWidth(line)
  {
    assert line[..|line|] == line;
    Position(row, col, DisplayWidthFromCharIndex(line, col))
  }

  /** `moveUp`: one row up, never above row 0. */
  function MoveUp(p: Position): (r: Position)
    ensures p.row > 0 ==> r.row == p.row - 1
    ensures p.row == 0 ==> r == p
    ensures r.col == p.col && r.displayCol == p.displayCol
  {
    if p.row > 0 then p.(row := p.row - 1) else p
  }

  /** `moveDown`: one row down, with no bound (the caller checks the buffer). */
  function MoveDown(p: Position): (r: Position)
    ensures r.row == p.row + 1
    ensures r.col == p.col && r.displayCol == p.displayCol
  {
    p.(row := p.row + 1)
  }

  /** Moving down then up returns to the same position. */
  lemma MoveDownThenUp(p: Position)
    ensures MoveUp(MoveDown(p)) == p
  {
  }

  /** `moveLeft`: one character left unless already at column 0; the display
      column is recomputed only when a line is supplied. */
  function MoveLeft(p: Position, line: Option<string>): (r: Position)
    ensures p.col == 0 ==> r == p
    ensures p.col > 0 ==> r.row == p.row && r.col == p.col - 1
    ensures p.col > 0 && Supplied(line) && p.col <= |line.value| ==> ConsistentWith(r, line.value)
    ensures p.col > 0 && Supplied(line) ==> r.displayCol == DisplayWidthFromCharIndex(line.value, r.col)
    ensures p.col > 0 && !Supplied(line) ==> r.displayCol == p.displayCol
  {
    if p.col > 0 then
      var q := p.(col := p.col - 1);
      if Supplied(line) then q.(displayCol := DisplayWidthFromCharIndex(line.value, q.col)) else q
    else p
  }

  /** `moveRight`: always one character right; the display column is
      recomputed only when a line is supplied. */
  function MoveRight(p: Position, line: Option<string>): (r: Position)
    ensures r.row == p.row && r.col == p.col + 1
    ensures Supplied(line) && p.col < |line.value| ==> ConsistentWith(r, line.value)
    ensures Supplied(line) ==> r.displayCol == DisplayWidthFromCharIndex(line.value, r.col)
    ensures !Supplied(line) ==> r.displayCol == p.displayCol
  {
    var q := p.(col := p.col + 1);
    if Supplied(line) then q.(displayCol := DisplayWidthFromCharIndex(line.value, q.col)) else q
  }

  /** Left then right, and right then left, are inverse on a consistent cursor
      inside a non-empty line. */
  lemma MoveLeftRightInverse(p: Position, line: string)
    requires ConsistentWith(p, line) && |line| > 0
    ensures p.col > 0 ==> MoveRight(MoveLeft(p, Some(line)), Some(line)) == p
    ensures p.col < |line| ==> MoveLeft(MoveRight(p, Some(line)), Some(line)) == p
  {
  }

  /** `moveToLineStart`: column and display column both 0. */
  function MoveToLineStart(p: Position): (r: Position)
    ensures r.row == p.row && r.col == 0 && r.displayCol == 0
    ensures forall line: string :: ConsistentWith(r, line)
  {
    p.(col := 0, displayCol := 0)
  }

  /** `moveToLineEnd`: the column becomes `lineLength`; the display column
      becomes the width of the line when one is supplied. */
  function MoveToLineEnd(p: Position, lineLength: nat, line: Option<string>): (r: Position)
    ensures r.row == p.row && r.col == lineLength
    ensures Supplied(line) ==> r.displayCol == StringWidth(line.value)
    ensures !Supplied(line) ==> r.displayCol == p.displayCol
    ensures Supplied(line) && lineLength == |line.value| ==> ConsistentWith(r, line.value)
  {
    var q := p.(col := lineLength);
    assert Supplied(line) ==> line.value[..|line.value|] == line.value;
    if Supplied(line) then q.(displayCol := StringWidth(line.value)) else q
  }

  /** `constrainToLine`: a column past `lineLength` is pulled back to it (and
      the display column to the full width when a line is supplied); a column
      within the line, and the row, are never touched. */
  function ConstrainToLine(p: Position, lineLength: nat, line: Option<string>): (r: Position)
    ensures p.col <= lineLength ==> r == p
    ensures r.row == p.row && r.col <= lineLength
    ensures p.col > lineLength ==> r.col == lineLength
    ensures p.col > lineLength && !Supplied(line) ==> r.displayCol == p.displayCol
    ensures p.col > lineLength && Supplied(line) ==> r.displayCol == StringWidth(line.value)
    ensures p.col > lineLength && Supplied(line) && lineLength == |line.value| ==> ConsistentWith(r, line.value)
  {
    if p.col > lineLength then
      var q := p.(col := lineLength);
      assert Supplied(line) ==> line.value[..|line.value|] == line.value;
      if Supplied(line) then q.(displayCol := StringWidth(line.value)) else q
    else p
  }

  /** `constrainToBuffer`: the row is pulled into `[0, max(0, maxRows - 1)]`;
      column and display column are left alone. Row numbers are natural
      numbers here, so the source's negative-row branch cannot arise. */
  function ConstrainToBuffer(p: Position, maxRows: int): (r: Position)
    ensures r.col == p.col && r.displayCol == p.displayCol
    ensures p.row < maxRows ==> r == p
    ensures maxRows >= 1 ==> r.row < maxRows
    ensures p.row >= maxRows ==> r.row == (if maxRows - 1 > 0 then maxRows - 1 else 0)
  {
    if p.row >= maxRows then p.(row := if maxRows - 1 > 0 then maxRows - 1 else 0) else p
  }

  /** Clamping twice is clamping once. */
  lemma ConstrainIdempotent(p: Position, maxRows: int, lineLength: nat, line: Option<string>)
    ensures ConstrainToBuffer(ConstrainToBuffer(p, maxRows), maxRows) == ConstrainToBuffer(p, maxRows)
    ensures ConstrainToLine(ConstrainToLine(p, lineLength, line), lineLength, line) == ConstrainToLine(p, lineLength, line)
  {
  }
}
