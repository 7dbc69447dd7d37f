/** The line buffer: the authoritative sequence of lines, its cached line
    count and the modified flag. Positions address it by row and character
    index; every out-of-range address is clamped or ignored, never an error. */
module TextBuffer {
  import opened Cursor

  /** `totalLines` is a cache of `|lines|`; the source's `maxLineLength`
      (a debug statistic) is not modelled. */
  datatype Buffer = Buffer(lines: seq<string>, totalLines: int, modified: bool)

  /** At least one line, and the cached count is the real one. */
  predicate Valid(b: Buffer) {
    |b.lines| >= 1 && b.totalLines == |b.lines|
  }

  /** A line break never occurs inside a line. */
  predicate NoBreak(s: string) {
    '\n' !in s
  }

  predicate NoBreaks(ls: seq<string>) {
    forall i :: 0 <= i < |ls| ==> NoBreak(ls[i])
  }

  /** A valid buffer whose lines are free of line breaks, as loading makes it. */
  predicate WellFormed(b: Buffer) {
    Valid(b) && NoBreaks(b.lines)
  }

  // ---------------------------------------------------------------------------
  // Splitting on and joining with '\n'

  /** `content.split('\n')`: the pieces between line breaks, at least one. */
  function Split(s: string): (ls: seq<string>)
    ensures |ls| >= 1 && NoBreaks(ls)
    decreases |s|
  {
    if |s| == 0 then [""]
    else
      var rest := Split(s[1..]);
      if s[0] == '\n' then [""] + rest
      else
        assert NoBreak([s[0]] + rest[0]);
        [[s[0]] + rest[0]] + rest[1..]
  }

  /** `lines.join('\n')`. */
  function Join(ls: seq<string>): string
    decreases |ls|
  {
    if |ls| == 0 then ""
    else if |ls| == 1 then ls[0]
    else ls[0] + "\n" + Join(ls[1..])
  }

  lemma JoinPrependOne(x: string, ls: seq<string>)
    requires |ls| == 1
    ensures Join([x + ls[0]] + ls[1..]) == x + Join(ls)
  {
    assert [x + ls[0]] + ls[1..] == [x + ls[0]];
  }

  lemma JoinPrependMany(x: string, ls: seq<string>)
    requires |ls| > 1
    ensures Join([x + ls[0]] + ls[1..]) == x + Join(ls)
  {
    var ms := [x + ls[0]] + ls[1..];
    assert ms[1..] == ls[1..];
    var rest := Join(ls[1..]);
    AppendAssoc(x, ls[0], "\n" + rest);
  }

  /** Concatenation regroups freely. */
  lemma AppendAssoc(a: string, b: string, c: string)
    ensures (a + b) + c == a + (b + c)
  {
  }

  /** Prepending to the first line prepends to the joined text. */
  lemma JoinPrepend(x: string, ls: seq<string>)
    requires |ls| >= 1
    ensures Join([x + ls[0]] + ls[1..]) == x + Join(ls)
  {
    if |ls| == 1 {
      JoinPrependOne(x, ls);
    } else {
      JoinPrependMany(x, ls);
    }
  }

  /** Joining the pieces of a split gives the text back. */
  lemma {:induction false} JoinSplit(s: string)
    ensures Join(Split(s)) == s
    decreases |s|
  {
    if |s| > 0 {
      var rest := Split(s[1..]);
      JoinSplit(s[1..]);
      if s[0] == '\n' {
        assert ([""] + rest)[1..] == rest;
        assert s == "\n" + s[1..];
      } else {
        JoinPrepend([s[0]], rest);
        assert s == [s[0]] + s[1..];
      }
    }
  }

  /** Splitting text that starts with a break-free piece. */
  lemma {:induction false} SplitPrefix(x: string, s: string)
    requires NoBreak(x)
    ensures Split(x + s) == [x + Split(s)[0]] + Split(s)[1..]
    decreases |x|
  {
    if |x| == 0 {
      assert x + s == s;
      assert x + Split(s)[0] == Split(s)[0];
      assert [Split(s)[0]] + Split(s)[1..] == Split(s);
    } else {
      assert (x + s)[1..] == x[1..] + s;
      assert x[0] == (x + s)[0];
      assert x[0] in x;
      SplitPrefix(x[1..], s);
      assert [x[0]] + (x[1..] + Split(s)[0]) == x + Split(s)[0];
    }
  }

  /** Splitting the join of break-free lines gives the lines back. */
  lemma {:induction false} SplitJoin(ls: seq<string>)
    requires |ls| >= 1 && NoBreaks(ls)
    ensures Split(Join(ls)) == ls
    decreases |ls|
  {
    if |ls| == 1 {
      SplitPrefix(ls[0], "");
      assert ls[0] + "" == ls[0];
    } else {
      var tail := Join(ls[1..]);
      SplitJoin(ls[1..]);
      assert Join(ls) == ls[0] + ("\n" + tail);
      SplitPrefix(ls[0], "\n" + tail);
      assert ("\n" + tail)[1..] == tail;
      assert Split("\n" + tail) == [""] + ls[1..];
      assert ls[0] + "" == ls[0];
    }
  }

  // ---------------------------------------------------------------------------
  // Whole-buffer operations

  /** `loadContent` (also the constructor): the content split into lines,
      unmodified. */
  function LoadContent(content: string): (b: Buffer)
    ensures WellFormed(b) && !b.modified
    ensures GetContent(b) == content
  {
    JoinSplit(content);
    var lines := Split(content);
    Buffer(lines, |lines|, false)
  }

  /** `getContent`: the lines joined with '\n'. */
  function GetContent(b: Buffer): string {
    Join(b.lines)
  }

  /** Saving then reloading a well-formed buffer gives the same lines. */
  lemma ContentRoundTrip(b: Buffer)
    requires WellFormed(b)
    ensures LoadContent(GetContent(b)).lines == b.lines
  {
    SplitJoin(b.lines);
  }

  /** `getLine`: the line at `row`, or '' when there is none. */
  function GetLine(b: Buffer, row: int): (line: string)
    ensures 0 <= row < |b.lines| ==> line == b.lines[row]
    ensures !(0 <= row < |b.lines|) ==> line == ""
  {
    if 0 <= row < |b.lines| then b.lines[row] else ""
  }

  /** `getLineCount`: the cached count. */
  function GetLineCount(b: Buffer): int {
    b.totalLines
  }

  /** `getLineLength`. */
  function GetLineLength(b: Buffer, row: int): nat {
    |GetLine(b, row)|
  }

  /** `resetModified`: clears the flag and nothing else. */
  function ResetModified(b: Buffer): (r: Buffer)
    ensures !r.modified
    ensures r.lines == b.lines && r.totalLines == b.totalLines
  {
    b.(modified := false)
  }

  // ---------------------------------------------------------------------------
  // Insertion

  /** The lines after `insertText`'s padding: '' lines appended until `row` exists. */
  function PadTo(lines: seq<string>, row: nat): (r: seq<string>)
    ensures |r| == if row < |lines| then |lines| else row + 1
    ensures r[..|lines|] == lines
    ensures forall i :: |lines| <= i < |r| ==> r[i] == ""
  {
    if row < |lines| then lines else lines + seq(row + 1 - |lines|, _ => "")
  }

  /** A column clamped to the length of its line. */
  function ClampCol(line: string, col: nat): (c: nat)
    ensures c <= |line| && c <= col
    ensures c == col || c == |line|
  {
    if col < |line| then col else |line|
  }

  /** `insertText`: pads with '' lines up to `pos.row`, then either splits the
      line at the clamped column (text "\n") or splices the text in there. */
  function InsertText(b: Buffer, pos: Position, text: string): (r: Buffer)
    ensures r.modified && r.totalLines == |r.lines| >= 1
    ensures
      var padded := PadTo(b.lines, pos.row);
      var line := padded[pos.row];
      var c := ClampCol(line, pos.col);
      && |r.lines| > pos.row
      && (forall i :: 0 <= i < pos.row ==> r.lines[i] == padded[i])
      && (text == "\n" ==>
            && |r.lines| == |padded| + 1
            && r.lines[pos.row] == line[..c]
            && r.lines[pos.row + 1] == line[c..]
            && (forall i :: pos.row + 1 < i < |r.lines| ==> r.lines[i] == padded[i - 1]))
      && (text != "\n" ==>
            && |r.lines| == |padded|
            && r.lines[pos.row] == line[..c] + text + line[c..]
            && (forall i :: pos.row < i < |r.lines| ==> r.lines[i] == padded[i]))
  {
    var lines := PadTo(b.lines, pos.row);
    var line := lines[pos.row];
    var col := ClampCol(line, pos.col);
    var lines' :=
      if text == "\n" then lines[..pos.row] + [line[..col], line[col..]] + lines[pos.row + 1..]
      else lines[pos.row := line[..col] + text + line[col..]];
    Buffer(lines', |lines'|, true)
  }

  /** Insertion never removes a line: every existing row survives, shifted by
      one after a split row. */
  lemma InsertKeepsLines(b: Buffer, pos: Position, text: string)
    ensures |InsertText(b, pos, text).lines| >= |b.lines|
    ensures |InsertText(b, pos, text).lines| >= pos.row + 1
  {
  }

  /** Inserting "\n" or break-free text keeps the lines free of breaks. */
  lemma InsertPreservesNoBreaks(b: Buffer, pos: Position, text: string)
    requires NoBreaks(b.lines)
    requires text == "\n" || NoBreak(text)
    ensures NoBreaks(InsertText(b, pos, text).lines)
  {
    var r := InsertText(b, pos, text);
    var padded := PadTo(b.lines, pos.row);
    assert NoBreaks(padded) by {
      forall i | 0 <= i < |padded| ensures NoBreak(padded[i]) {
        if i < |b.lines| {
          assert padded[i] == padded[..|b.lines|][i];
        }
      }
    }
    var line := padded[pos.row];
    var c := ClampCol(line, pos.col);
    assert NoBreak(line[..c]) && NoBreak(line[c..]) by {
      assert forall k :: 0 <= k < c ==> line[..c][k] == line[k];
      assert forall k :: 0 <= k < |line| - c ==> line[c..][k] == line[c + k];
    }
    if text != "\n" {
      assert NoBreak(line[..c] + text + line[c..]);
    }
  }

  // ---------------------------------------------------------------------------
  // Deletion and its mirror read

  /** The length-1 delete at the end of a row that has a successor: it joins
      the next row instead of removing a character. */
  predicate JoinsNext(b: Buffer, pos: Position, length: nat) {
    && pos.row < |b.lines| - 1
    && length == 1
    && ClampCol(b.lines[pos.row], pos.col) == |b.lines[pos.row]|
  }

  /** The end of the range a non-joining delete removes from `line`. */
  function RangeEnd(line: string, c: nat, length: nat): (e: nat)
    requires c <= |line|
    ensures c <= e <= |line|
    ensures e - c == length || e == |line|
  {
    if c + length <= |line| then c + length else |line|
  }

  /** `deleteText`: a no-op past the last row; otherwise removes one character,
      joins the next row (length 1 at the end of a non-last row), or removes
      the clamped range `[col, col + length)` within the row. */
  function DeleteText(b: Buffer, pos: Position, length: nat): (r: Buffer)
    ensures pos.row >= |b.lines| ==> r == b
    ensures pos.row < |b.lines| ==>
      var line := b.lines[pos.row];
      var c := ClampCol(line, pos.col);
      && r.modified && r.totalLines == |r.lines| && |r.lines| > pos.row
      && (forall i :: 0 <= i < pos.row ==> r.lines[i] == b.lines[i])
      && (JoinsNext(b, pos, length) ==>
            && |r.lines| == |b.lines| - 1
            && r.lines[pos.row] == line + b.lines[pos.row + 1]
            && (forall i :: pos.row < i < |r.lines| ==> r.lines[i] == b.lines[i + 1]))
      && (!JoinsNext(b, pos, length) ==>
            && |r.lines| == |b.lines|
            && r.lines[pos.row] == line[..c] + line[RangeEnd(line, c, length)..]
            && (forall i :: pos.row < i < |r.lines| ==> r.lines[i] == b.lines[i]))
  {
    if pos.row >= |b.lines| then b
    else
      var line := b.lines[pos.row];
      var col := ClampCol(line, pos.col);
      var lines' :=
        if length == 1 && col < |line| then
          b.lines[pos.row := line[..col] + line[col + 1..]]
        else if length == 1 && col == |line| && pos.row < |b.lines| - 1 then
          b.lines[..pos.row] + [line + b.lines[pos.row + 1]] + b.lines[pos.row + 2..]
        else
          b.lines[pos.row := line[..col] + line[RangeEnd(line, col, length)..]];
      Buffer(lines', |lines'|, true)
  }

  /** `getText`: what `deleteText` with the same arguments would remove; the
      join case reads as "\n". */
  function GetText(b: Buffer, pos: Position, length: nat): (t: string)
    ensures pos.row >= |b.lines| ==> t == ""
    ensures JoinsNext(b, pos, length) ==> t == "\n"
    ensures pos.row < |b.lines| && !JoinsNext(b, pos, length) ==>
      var line := b.lines[pos.row];
      var c := ClampCol(line, pos.col);
      t == line[c..RangeEnd(line, c, length)]
  {
    if pos.row >= |b.lines| then ""
    else
      var line := b.lines[pos.row];
      var col := ClampCol(line, pos.col);
      if length == 1 && col < |line| then [line[col]]
      else if length == 1 && col == |line| && pos.row < |b.lines| - 1 then "\n"
      else line[col..RangeEnd(line, col, length)]
  }

  /** On break-free lines `getText` reads "\n" exactly in the join case, and
      otherwise the row before the delete is the row after it with the read
      text put back at the clamped column. */
  lemma GetTextMirrorsDelete(b: Buffer, pos: Position, length: nat)
    requires pos.row < |b.lines| && NoBreak(b.lines[pos.row])
    ensures GetText(b, pos, length) == "\n" <==> JoinsNext(b, pos, length)
    ensures !JoinsNext(b, pos, length) ==>
      var c := ClampCol(b.lines[pos.row], pos.col);
      var after := DeleteText(b, pos, length).lines[pos.row];
      b.lines[pos.row] == after[..c] + GetText(b, pos, length) + after[c..]
  {
    var line := b.lines[pos.row];
    var c := ClampCol(line, pos.col);
    var t := GetText(b, pos, length);
    if !JoinsNext(b, pos, length) {
      var e := RangeEnd(line, c, length);
      assert t == line[c..e];
      assert t != "\n" by {
        if |t| == 1 {
          assert t[0] == line[c] && line[c] in line;
        }
      }
      var after := line[..c] + line[e..];
      assert after[..c] == line[..c] && after[c..] == line[e..];
      assert line == line[..c] + line[c..e] + line[e..];
    }
  }

  /** Deleting never leaves the buffer without a line and keeps lines free of breaks. */
  lemma DeletePreservesWellFormed(b: Buffer, pos: Position, length: nat)
    requires WellFormed(b)
    ensures WellFormed(DeleteText(b, pos, length))
  {
    var r := DeleteText(b, pos, length);
    if pos.row < |b.lines| {
      var line := b.lines[pos.row];
      var c := ClampCol(line, pos.col);
      if JoinsNext(b, pos, length) {
        assert NoBreak(line + b.lines[pos.row + 1]);
      } else {
        var e := RangeEnd(line, c, length);
        assert NoBreak(line[..c] + line[e..]) by {
          assert forall k :: 0 <= k < c ==> line[..c][k] == line[k];
          assert forall k :: 0 <= k < |line| - e ==> line[e..][k] == line[e + k];
        }
      }
      assert forall i :: 0 <= i < |r.lines| && i != pos.row ==> NoBreak(r.lines[i]);
    }
  }

  /** Insert then delete of the same length at the same in-range position
      restores the lines, for every text (a "\n" split is joined back, any
      other text is spliced out again). */
  lemma InsertThenDeleteRestores(b: Buffer, pos: Position, text: string)
    requires pos.row < |b.lines| && pos.col <= |b.lines[pos.row]|
    ensures DeleteText(InsertText(b, pos, text), pos, |text|).lines == b.lines
  {
    var line := b.lines[pos.row];
    var c := pos.col;
    var i1 := InsertText(b, pos, text);
    var d := DeleteText(i1, pos, |text|);
    assert PadTo(b.lines, pos.row) == b.lines;
    assert ClampCol(line, pos.col) == c;
    if text == "\n" {
      assert i1.lines[pos.row] == line[..c];
      assert JoinsNext(i1, pos, |text|);
      assert line[..c] + line[c..] == line;
    } else {
      var nl := line[..c] + text + line[c..];
      assert i1.lines[pos.row] == nl;
      assert ClampCol(nl, pos.col) == c;
      assert !JoinsNext(i1, pos, |text|);
      assert RangeEnd(nl, c, |text|) == c + |text|;
      assert nl[..c] == line[..c] && nl[c + |text|..] == line[c..];
      assert line[..c] + line[c..] == line;
    }
    assert |d.lines| == |b.lines|;
    assert forall i :: 0 <= i < |b.lines| ==> d.lines[i] == b.lines[i];
  }

  /** Delete then re-insert of what `getText` read restores the lines, when
      the row is in range, the column within it and the row break-free. */
  lemma DeleteThenInsertRestores(b: Buffer, pos: Position, length: nat)
    requires pos.row < |b.lines| && pos.col <= |b.lines[pos.row]|
    requires NoBreak(b.lines[pos.row])
    ensures InsertText(DeleteText(b, pos, length), pos, GetText(b, pos, length)).lines == b.lines
  {
    var line := b.lines[pos.row];
    var c := pos.col;
    var t := GetText(b, pos, length);
    var d := DeleteText(b, pos, length);
    var r := InsertText(d, pos, t);
    assert PadTo(d.lines, pos.row) == d.lines;
    GetTextMirrorsDelete(b, pos, length);
    if JoinsNext(b, pos, length) {
      assert c == |line|;
      var joined := line + b.lines[pos.row + 1];
      assert ClampCol(joined, c) == c;
      assert joined[..c] == line && joined[c..] == b.lines[pos.row + 1];
      assert |r.lines| == |b.lines|;
      assert forall i :: 0 <= i < |b.lines| ==> r.lines[i] == b.lines[i];
    } else {
      var after := d.lines[pos.row];
      assert ClampCol(after, c) == c by {
        assert |after| >= c;
      }
      assert |r.lines| == |b.lines|;
      assert forall i :: 0 <= i < |b.lines| ==> r.lines[i] == b.lines[i];
    }
  }

  /** A length-1 delete strictly inside a row removes the character under the
      column, which is what `getText` reads there. */
  lemma DeleteOneInRow(b: Buffer, row: nat, c: nat)
    requires row < |b.lines| && c < |b.lines[row]|
    ensures var line := b.lines[row];
            && DeleteText(b, Position(row, c, 0), 1).lines == b.lines[row := line[..c] + line[c + 1..]]
            && GetText(b, Position(row, c, 0), 1) == [line[c]]
  {
    assert !JoinsNext(b, Position(row, c, 0), 1);
  }

  /** A length-1 delete at the end of a row that has a successor joins the
      two rows, and `getText` reads it as "\n". */
  lemma JoinWithNext(b: Buffer, pos: Position)
    requires pos.row < |b.lines| - 1 && pos.col == |b.lines[pos.row]|
    ensures var ls := b.lines;
            && DeleteText(b, pos, 1).lines == ls[..pos.row] + [ls[pos.row] + ls[pos.row + 1]] + ls[pos.row + 2..]
            && GetText(b, pos, 1) == "\n"
  {
    assert JoinsNext(b, pos, 1);
    var r := DeleteText(b, pos, 1);
    var ls := b.lines;
    var joined := ls[..pos.row] + [ls[pos.row] + ls[pos.row + 1]] + ls[pos.row + 2..];
    assert |r.lines| == |joined|;
    assert forall i :: 0 <= i < |joined| ==> r.lines[i] == joined[i];
  }

  /** Break-free text inserted at a column within an existing row is spliced
      into that row alone. */
  lemma InsertInRow(b: Buffer, row: nat, c: nat, text: string)
    requires row < |b.lines| && c <= |b.lines[row]| && text != "\n"
    ensures var line := b.lines[row];
            InsertText(b, Position(row, c, 0), text).lines == b.lines[row := line[..c] + text + line[c..]]
  {
    assert PadTo(b.lines, row) == b.lines;
  }

  /** The edits and the read look only at the lines, never at the counters. */
  lemma EditsSeeOnlyLines(b1: Buffer, b2: Buffer, pos: Position, text: string, length: nat)
    requires b1.lines == b2.lines
    ensures InsertText(b1, pos, text) == InsertText(b2, pos, text)
    ensures DeleteText(b1, pos, length).lines == DeleteText(b2, pos, length).lines
    ensures GetText(b1, pos, length) == GetText(b2, pos, length)
  {
  }

  /** Inserting keeps the buffer well-formed for "\n" and break-free text. */
  lemma InsertPreservesWellFormed(b: Buffer, pos: Position, text: string)
    requires WellFormed(b)
    requires text == "\n" || NoBreak(text)
    ensures WellFormed(InsertText(b, pos, text))
  {
    InsertPreservesNoBreaks(b, pos, text);
  }
}
