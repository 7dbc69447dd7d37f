/** Reversible edit commands. The source's three command classes become one
    closed datatype; `instanceof` tests become a match on the pair of kinds.
    A command does not own the buffer it edits: execute and undo take the
    buffer and return the edited one together with the updated command. */
module Commands {
  import opened Cursor
  import opened TextBuffer

  /** Each command carries its anchor position, its payload and the
      `executed` flag that makes execute and undo idempotent. */
  datatype EditCommand =
    | InsertTextCommand(position: Position, text: string, executed: bool)
    | DeleteTextCommand(position: Position, deletedText: string, executed: bool)
    | InsertLineCommand(position: Position, executed: bool)
  {
    /** The text the command inserts or removes ("\n" for a line break). */
    function Payload(): string {
      match this
      case InsertTextCommand(_, t, _) => t
      case DeleteTextCommand(_, t, _) => t
      case InsertLineCommand(_, _) => "\n"
    }
  }

  /** A command together with the buffer it has just acted on. */
  datatype Step = Step(command: EditCommand, buffer: Buffer)

  /** The payload is a single line break or text without one, as every
      command the editor creates is. */
  predicate PayloadOk(c: EditCommand) {
    c.Payload() == "\n" || NoBreak(c.Payload())
  }

  /** The same command, flag aside. */
  predicate SameEdit(a: EditCommand, b: EditCommand) {
    a == b.(executed := a.executed)
  }

  // ---------------------------------------------------------------------------
  // execute / undo / redo

  /** `execute`: a no-op when already executed. Insert-text inserts its text,
      insert-line inserts "\n", and delete deletes only when `getText` still
      reads its snapshot; otherwise it leaves the buffer alone and stays
      unexecuted. */
  function Execute(c: EditCommand, b: Buffer): (s: Step)
    ensures SameEdit(s.command, c)
    ensures c.executed ==> s == Step(c, b)
    ensures !c.executed && !c.DeleteTextCommand? ==>
      s.command.executed && s.buffer == InsertText(b, c.position, c.Payload())
    ensures !c.executed && c.DeleteTextCommand? ==>
      var matches := GetText(b, c.position, |c.deletedText|) == c.deletedText;
      && s.command.executed == matches
      && (matches ==> s.buffer == DeleteText(b, c.position, |c.deletedText|))
      && (!matches ==> s.buffer == b)
  {
    if c.executed then Step(c, b)
    else
      match c
      case InsertTextCommand(p, t, _) => Step(InsertTextCommand(p, t, true), InsertText(b, p, t))
      case DeleteTextCommand(p, t, _) =>
        if GetText(b, p, |t|) == t then Step(DeleteTextCommand(p, t, true), DeleteText(b, p, |t|))
        else Step(c, b)
      case InsertLineCommand(p, _) => Step(InsertLineCommand(p, true), InsertText(b, p, "\n"))
  }

  /** `undo`: a no-op unless executed. Inserts are undone by deleting the
      payload's length at the anchor, deletes by re-inserting the payload. */
  function Undo(c: EditCommand, b: Buffer): (s: Step)
    ensures SameEdit(s.command, c) && !s.command.executed
    ensures !c.executed ==> s == Step(c, b)
    ensures c.executed && !c.DeleteTextCommand? ==> s.buffer == DeleteText(b, c.position, |c.Payload()|)
    ensures c.executed && c.DeleteTextCommand? ==> s.buffer == InsertText(b, c.position, c.deletedText)
  {
    if !c.executed then Step(c, b)
    else
      match c
      case InsertTextCommand(p, t, _) => Step(InsertTextCommand(p, t, false), DeleteText(b, p, |t|))
      case DeleteTextCommand(p, t, _) => Step(DeleteTextCommand(p, t, false), InsertText(b, p, t))
      case InsertLineCommand(p, _) => Step(InsertLineCommand(p, false), DeleteText(b, p, 1))
  }

  /** `redo` is `execute`. */
  function Redo(c: EditCommand, b: Buffer): (s: Step)
    ensures s == Execute(c, b)
  {
    Execute(c, b)
  }

  /** A second execute, or a second undo, changes nothing. */
  lemma ExecuteUndoIdempotent(c: EditCommand, b: Buffer)
    ensures var s := Execute(c, b); Execute(s.command, s.buffer) == s
    ensures var s := Undo(c, b); Undo(s.command, s.buffer) == s
  {
  }

  /** Execute then undo gives back the original lines and the original
      (unexecuted) command, for an in-range anchor. A delete must hold the
      snapshot `getText` reads there, and its row must be free of breaks. */
  lemma ExecuteThenUndoRestores(c: EditCommand, b: Buffer)
    requires !c.executed
    requires c.position.row < |b.lines| && c.position.col <= |b.lines[c.position.row]|
    requires c.DeleteTextCommand? ==>
      && c.deletedText == GetText(b, c.position, |c.deletedText|)
      && NoBreak(b.lines[c.position.row])
    ensures var s := Execute(c, b);
            var u := Undo(s.command, s.buffer);
            u.command == c && u.buffer.lines == b.lines
  {
    match c
    case InsertTextCommand(p, t, _) =>
      InsertThenDeleteRestores(b, p, t);
    case DeleteTextCommand(p, t, _) =>
      DeleteThenInsertRestores(b, p, |t|);
    case InsertLineCommand(p, _) =>
      InsertThenDeleteRestores(b, p, "\n");
  }

  /** Execute acts on the lines alone: two buffers with the same lines are
      edited alike. Hence redo after an undo that restored the lines repeats
      the original edit exactly. */
  lemma ExecuteDependsOnLinesOnly(c: EditCommand, b1: Buffer, b2: Buffer)
    requires b1.lines == b2.lines
    ensures Execute(c, b1).command == Execute(c, b2).command
    ensures !c.executed ==> Execute(c, b1).buffer.lines == Execute(c, b2).buffer.lines
  {
  }

  /** After execute, the executed command can be undone and redone: undo then
      redo restores both the lines and the command. */
  lemma UndoThenRedoRestores(c: EditCommand, b: Buffer)
    requires !c.executed
    requires c.position.row < |b.lines| && c.position.col <= |b.lines[c.position.row]|
    requires c.DeleteTextCommand? ==>
      && c.deletedText == GetText(b, c.position, |c.deletedText|)
      && NoBreak(b.lines[c.position.row])
    ensures var s := Execute(c, b);
            var u := Undo(s.command, s.buffer);
            var r := Redo(u.command, u.buffer);
            r.command == s.command && r.buffer.lines == s.buffer.lines
  {
    ExecuteThenUndoRestores(c, b);
    var s := Execute(c, b);
    var u := Undo(s.command, s.buffer);
    ExecuteDependsOnLinesOnly(c, u.buffer, b);
  }

  // ---------------------------------------------------------------------------
  // Merging

  /** `canMerge`: same kind, both payloads one character and neither "\n",
      and adjacency by kind. An insert merges the insert at the end of its
      text; a delete merges the delete one column before (backspace) or at
      its column (forward delete). Line-break commands never merge. */
  function CanMerge(c: EditCommand, other: EditCommand): (r: bool)
    ensures r ==> |c.Payload()| == 1 && |other.Payload()| == 1
    ensures r ==> c.Payload() != "\n" && other.Payload() != "\n"
    ensures r ==> other.position.row == c.position.row
    ensures c.InsertLineCommand? || other.InsertLineCommand? ==> !r
    ensures c.InsertTextCommand? && other.InsertTextCommand? ==>
      (r <==> && other.position.row == c.position.row
              && other.position.col == c.position.col + |c.text|
              && |c.text| == 1 && |other.text| == 1
              && other.text != "\n" && c.text != "\n")
    ensures c.DeleteTextCommand? && other.DeleteTextCommand? ==>
      (r <==> && other.position.row == c.position.row
              && (other.position.col == c.position.col - 1 || other.position.col == c.position.col)
              && |c.deletedText| == 1 && |other.deletedText| == 1
              && other.deletedText != "\n" && c.deletedText != "\n")
    ensures c.InsertTextCommand? != other.InsertTextCommand? ==> !r
  {
    match (c, other)
    case (InsertTextCommand(p, t, _), InsertTextCommand(q, u, _)) =>
      && q.row == p.row && q.col == p.col + |t|
      && |t| == 1 && |u| == 1
      && u != "\n" && t != "\n"
    case (DeleteTextCommand(p, t, _), DeleteTextCommand(q, u, _)) =>
      var isBackspace := q.row == p.row && q.col == p.col - 1;
      var isDelete := q.row == p.row && q.col == p.col;
      && (isBackspace || isDelete)
      && |t| == 1 && |u| == 1
      && u != "\n" && t != "\n"
    case _ => false
  }

  /** `merge`: when `canMerge` holds, fold the other payload in. An insert
      appends; a backspace merge prepends and moves the anchor to the other
      command's position; a forward-delete merge appends. Otherwise nothing
      changes. The executed flag is this command's. */
  function Merge(c: EditCommand, other: EditCommand): (r: EditCommand)
    ensures !CanMerge(c, other) ==> r == c
    ensures r.executed == c.executed
    ensures CanMerge(c, other) && c.InsertTextCommand? ==>
      r == c.(text := c.text + other.text)
    ensures CanMerge(c, other) && c.DeleteTextCommand? && other.position.col == c.position.col - 1 ==>
      r == c.(deletedText := other.deletedText + c.deletedText, position := other.position)
    ensures CanMerge(c, other) && c.DeleteTextCommand? && other.position.col == c.position.col ==>
      r == c.(deletedText := c.deletedText + other.deletedText)
    ensures CanMerge(c, other) ==> |r.Payload()| == 2
  {
    if !CanMerge(c, other) then c
    else
      match c
      case InsertTextCommand(p, t, e) => InsertTextCommand(p, t + other.Payload(), e)
      case DeleteTextCommand(p, t, e) =>
        if other.position.col == p.col - 1 then
          DeleteTextCommand(other.position, other.Payload() + t, e)
        else
          DeleteTextCommand(p, t + other.Payload(), e)
  }

  /** Only pairs coalesce: a merged command has a two-character payload and
      never merges again. */
  lemma MergedNeverMergesAgain(c: EditCommand, other: EditCommand, next: EditCommand)
    requires CanMerge(c, other)
    ensures !CanMerge(Merge(c, other), next)
  {
  }

  /** Merging keeps payloads free of line breaks. */
  lemma MergePreservesPayloadOk(c: EditCommand, other: EditCommand)
    requires PayloadOk(c) && PayloadOk(other)
    ensures PayloadOk(Merge(c, other))
  {
    if CanMerge(c, other) {
      assert NoBreak(c.Payload()) && NoBreak(other.Payload()) by {
        assert c.Payload() == [c.Payload()[0]] && other.Payload() == [other.Payload()[0]];
      }
    }
  }

  /** A backspace followed by a forward delete at the column it left the
      cursor on is a forward-delete merge. */
  lemma BackspaceThenForwardDeleteMerge(row: nat, col: nat, x: char, y: char)
    requires x != '\n' && y != '\n'
    ensures CanMerge(DeleteTextCommand(Position(row, col, 0), [x], true),
                     DeleteTextCommand(Position(row, col, 0), [y], false))
  {
  }

  // ---------------------------------------------------------------------------
  // Queries

  /** `getCursorPosition`: the anchor, which for a delete is the possibly
      shifted one after a backspace merge. (The source's `displayCol || 0`
      only replaces a missing value, and the model's is never missing.) */
  function GetCursorPosition(c: EditCommand): (p: Position)
    ensures p == c.position
  {
    c.position
  }

  /** `getType`. */
  function GetType(c: EditCommand): (t: string)
    ensures t == "insert" <==> c.InsertTextCommand?
    ensures t == "delete" <==> c.DeleteTextCommand?
    ensures t == "newline" <==> c.InsertLineCommand?
  {
    match c
    case InsertTextCommand(_, _, _) => "insert"
    case DeleteTextCommand(_, _, _) => "delete"
    case InsertLineCommand(_, _) => "newline"
  }
}
