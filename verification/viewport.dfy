/** The viewport: a window over the buffer whose horizontal coordinates are
    display columns. It scrolls minimally to keep the cursor visible, clips
    lines by display width, and converts between screen and buffer coordinates. */
module Viewport {
  import opened TextUtils
  import opened Cursor
  import opened TextBuffer

  /** `startCol` and `width` are in display columns. */
  datatype ViewportInfo = ViewportInfo(startRow: nat, startCol: nat, height: nat, width: nat)

  /** A screen coordinate; it may lie outside the window. */
  datatype ScreenPoint = ScreenPoint(row: int, col: int)

  /** A buffer coordinate obtained from a screen coordinate; the row may be
      negative or past the end when the screen coordinate is. */
  datatype BufferPoint = BufferPoint(row: int, col: nat, displayCol: int)

  /** The constructor: a window of the given size at the origin. */
  function NewViewport(height: nat, width: nat): (v: ViewportInfo)
    ensures v.startRow == 0 && v.startCol == 0
    ensures v.height == height && v.width == width
  {
    ViewportInfo(0, 0, height, width)
  }

  /** `setSize`: a new size, the same scroll offsets. */
  function SetSize(v: ViewportInfo, height: nat, width: nat): (r: ViewportInfo)
    ensures r.startRow == v.startRow && r.startCol == v.startCol
    ensures r.height == height && r.width == width
  {
    v.(height := height, width := width)
  }

  // ---------------------------------------------------------------------------
  // Scrolling by one

  /** `scrollUp`: one row up, never below 0. */
  function ScrollUp(v: ViewportInfo): (r: ViewportInfo)
    ensures v.startRow > 0 ==> r == v.(startRow := v.startRow - 1)
    ensures v.startRow == 0 ==> r == v
  {
    if v.startRow > 0 then v.(startRow := v.startRow - 1) else v
  }

  /** `scrollDown`: one row down while the offset is below `maxRows - 1`. */
  function ScrollDown(v: ViewportInfo, maxRows: int): (r: ViewportInfo)
    ensures v.startRow < maxRows - 1 ==> r == v.(startRow := v.startRow + 1)
    ensures v.startRow >= maxRows - 1 ==> r == v
    ensures v.startRow <= maxRows - 1 ==> r.startRow <= maxRows - 1
  {
    if v.startRow < maxRows - 1 then v.(startRow := v.startRow + 1) else v
  }

  /** `scrollLeft`: one column left, never below 0. */
  function ScrollLeft(v: ViewportInfo): (r: ViewportInfo)
    ensures v.startCol > 0 ==> r == v.(startCol := v.startCol - 1)
    ensures v.startCol == 0 ==> r == v
  {
    if v.startCol > 0 then v.(startCol := v.startCol - 1) else v
  }

  /** `scrollRight`: one column right while the offset is below `maxCols - 1`. */
  function ScrollRight(v: ViewportInfo, maxCols: int): (r: ViewportInfo)
    ensures v.startCol < maxCols - 1 ==> r == v.(startCol := v.startCol + 1)
    ensures v.startCol >= maxCols - 1 ==> r == v
    ensures v.startCol <= maxCols - 1 ==> r.startCol <= maxCols - 1
  {
    if v.startCol < maxCols - 1 then v.(startCol := v.startCol + 1) else v
  }

  /** Scrolling down then up, or right then left, is undone when it moved. */
  lemma ScrollInverse(v: ViewportInfo, maxRows: int, maxCols: int)
    ensures v.startRow < maxRows - 1 ==> ScrollUp(ScrollDown(v, maxRows)) == v
    ensures v.startCol < maxCols - 1 ==> ScrollLeft(ScrollRight(v, maxCols)) == v
  {
  }

  // ---------------------------------------------------------------------------
  // Keeping the cursor visible

  /** The largest start row the final clamp allows. */
  function MaxStartRow(lineCount: int, height: nat): nat {
    if lineCount - height > 0 then lineCount - height else 0
  }

  /** A window start row that contains `row` and that the clamp allows. */
  predicate AdmissibleStartRow(s: int, row: nat, height: nat, lineCount: int) {
    0 <= s <= MaxStartRow(lineCount, height) && s <= row < s + height
  }

  /** `ensureCursorVisible`: snap the window to the nearest edge that shows the
      cursor (no re-centring), then clamp the start row into
      `[0, max(0, lineCount - height)]` and the start column to `>= 0`. */
  function EnsureCursorVisible(v: ViewportInfo, cursor: Position, b: Buffer): (r: ViewportInfo)
    ensures r.height == v.height && r.width == v.width
    ensures r.startRow <= MaxStartRow(GetLineCount(b), v.height)
    ensures v.height >= 1 && cursor.row < GetLineCount(b) ==>
      r.startRow <= cursor.row < r.startRow + v.height
    ensures v.width >= 1 ==> r.startCol <= cursor.displayCol < r.startCol + v.width
    ensures v.startCol <= cursor.displayCol < v.startCol + v.width ==> r.startCol == v.startCol
    ensures cursor.displayCol < v.startCol ==> r.startCol == cursor.displayCol
    ensures v.width >= 1 && cursor.displayCol >= v.startCol + v.width ==> r.startCol == cursor.displayCol - v.width + 1
    ensures v.startRow <= cursor.row < v.startRow + v.height && v.startRow <= MaxStartRow(GetLineCount(b), v.height) ==>
      r.startRow == v.startRow
  {
    var row := cursor.row;
    var displayCol := cursor.displayCol;
    var sr: int :=
      if row < v.startRow then row
      else if row >= v.startRow + v.height then row - v.height + 1
      else v.startRow;
    var sc: int :=
      if displayCol < v.startCol then displayCol
      else if displayCol >= v.startCol + v.width then displayCol - v.width + 1
      else v.startCol;
    var sr1 := if sr > 0 then sr else 0;
    var sc1: nat := if sc > 0 then sc else 0;
    var maxStart := MaxStartRow(GetLineCount(b), v.height);
    var sr2: nat := if sr1 < maxStart then sr1 else maxStart;
    v.(startRow := sr2, startCol := sc1)
  }

  /** Minimal scroll: when the cursor row is in the buffer, the new start row
      is, among all admissible start rows, one closest to the old start row. */
  lemma EnsureVisibleScrollsMinimally(v: ViewportInfo, cursor: Position, b: Buffer, s: int)
    requires v.height >= 1 && cursor.row < GetLineCount(b)
    requires AdmissibleStartRow(s, cursor.row, v.height, GetLineCount(b))
    ensures AdmissibleStartRow(EnsureCursorVisible(v, cursor, b).startRow, cursor.row, v.height, GetLineCount(b))
    ensures var d := EnsureCursorVisible(v, cursor, b).startRow - v.startRow;
            var e := s - v.startRow;
            (if d < 0 then -d else d) <= (if e < 0 then -e else e)
  {
  }

  /** Minimal scroll, column half: among all start columns whose window shows
      the cursor's display column, the new one is closest to the old one. */
  lemma EnsureVisibleScrollsColumnMinimally(v: ViewportInfo, cursor: Position, b: Buffer, s: int)
    requires v.width >= 1
    requires 0 <= s <= cursor.displayCol < s + v.width
    ensures var r := EnsureCursorVisible(v, cursor, b);
            var d := r.startCol - v.startCol;
            var e := s - v.startCol;
            && r.startCol <= cursor.displayCol < r.startCol + v.width
            && (if d < 0 then -d else d) <= (if e < 0 then -e else e)
  {
  }

  /** Once the cursor is visible, making it visible again changes nothing. */
  lemma EnsureVisibleIdempotent(v: ViewportInfo, cursor: Position, b: Buffer)
    requires v.height >= 1 && v.width >= 1 && cursor.row < GetLineCount(b)
    ensures var r := EnsureCursorVisible(v, cursor, b);
            EnsureCursorVisible(r, cursor, b) == r
  {
  }

  // ---------------------------------------------------------------------------
  // Clipping lines

  /** A string is its prefix, a middle part and its suffix. */
  lemma SplitAround(t: string, i: nat, j: nat)
    requires i <= j <= |t|
    ensures t == t[..i] + t[i..j] + t[j..]
  {
  }

  /** The part of `line` shown between display columns `startCol` and
      `startCol + width`. Both ends come from `getCharIndexFromDisplayWidth`,
      so a wide character straddling the left edge is shown whole. The source's
      `substring` would swap reversed ends, but with `width >= 0` they never are. */
  function VisibleSlice(line: string, startCol: nat, width: nat): (r: string)
    ensures var s := CharIndexFromDisplayWidth(line, startCol);
            var e := CharIndexFromDisplayWidth(line, startCol + width);
            s <= e && line == line[..s] + r + line[e..]
    ensures StringWidth(r) <= width + 1
    ensures startCol == 0 ==> StringWidth(r) <= width
  {
    var s := CharIndexFromDisplayWidth(line, startCol);
    var e := CharIndexFromDisplayWidth(line, startCol + width);
    SliceWidth(line, startCol, width);
    SplitAround(line, s, e);
    line[s..e]
  }

  /** The width of the clipped slice exceeds the window by at most the one
      extra cell of a wide character cut by the left edge. */
  lemma SliceWidth(line: string, startCol: nat, width: nat)
    ensures var s := CharIndexFromDisplayWidth(line, startCol);
            var e := CharIndexFromDisplayWidth(line, startCol + width);
            s <= e &&
            StringWidth(line[s..e]) <= width + 1 &&
            (startCol == 0 ==> StringWidth(line[s..e]) <= width)
  {
    var s := CharIndexFromDisplayWidth(line, startCol);
    var e := CharIndexFromDisplayWidth(line, startCol + width);
    assert e <= |line|;
    CharIndexMonotone(line, startCol, startCol + width);
    assert s <= e;
    PrefixWidthSplit(line, s, e);
    var ws, wm, we := StringWidth(line[..s]), StringWidth(line[s..e]), StringWidth(line[..e]);
    assert we == ws + wm;
    if startCol + width == 0 {
      assert e == 0 && line[s..e] == [];
    } else {
      assert we <= startCol + width;
      if startCol == 0 {
        assert s == 0;
      } else if s < |line| {
        PrefixWidthStep(line, s);
        assert ws + CharWidth(line[s]) > startCol;
      } else {
        assert line[s..e] == [];
      }
    }
  }


  /** A wide character cut by the left edge makes the slice one cell wider
      than the window: "漢a" seen from column 1 through a one-column window. */
  lemma SliceMayOverhang()
    ensures VisibleSlice("漢a", 1, 1) == "漢"
    ensures StringWidth(VisibleSlice("漢a", 1, 1)) == 2
  {
    assert CharWidth('漢') == 2 by {
      assert WideRanges[0] == (0x4E00, 0x9FFF);
    }
    assert FitPrefix("漢a", 1) == 0;
    assert FitPrefix("a", 0) == 0;
    assert FitPrefix("漢a", 2) == 1;
  }

  /** What screen row `i` shows: the clipped buffer row while it is before the
      end of the band, '' past it. */
  function VisibleRow(v: ViewportInfo, b: Buffer, i: nat): (r: string)
    requires i < v.height
    ensures v.startRow + i < GetLineCount(b) ==> r == VisibleSlice(GetLine(b, v.startRow + i), v.startCol, v.width)
    ensures v.startRow + i >= GetLineCount(b) ==> r == ""
    ensures StringWidth(r) <= v.width + 1
  {
    var endRow := if v.startRow + v.height < GetLineCount(b) then v.startRow + v.height else GetLineCount(b);
    if v.startRow + i < endRow then VisibleSlice(GetLine(b, v.startRow + i), v.startCol, v.width) else ""
  }

  /** `getVisibleLines`: one entry per screen row of the window. */
  function GetVisibleLines(v: ViewportInfo, b: Buffer): (r: seq<string>)
    ensures |r| == v.height
    ensures forall i :: 0 <= i < v.height ==> r[i] == VisibleRow(v, b, i)
  {
    seq(v.height, i requires 0 <= i < v.height => VisibleRow(v, b, i))
  }

  /** The visible lines are exactly `height` rows: the clipped buffer rows of
      the band, then '' past the buffer end, each at most one cell wider than
      the window. */
  lemma VisibleLinesShape(v: ViewportInfo, b: Buffer)
    ensures var r := GetVisibleLines(v, b);
      && |r| == v.height
      && (forall i :: 0 <= i < v.height && v.startRow + i >= GetLineCount(b) ==> r[i] == "")
      && (forall i :: 0 <= i < v.height && v.startRow + i < GetLineCount(b) ==>
            r[i] == VisibleSlice(GetLine(b, v.startRow + i), v.startCol, v.width))
      && (forall i :: 0 <= i < v.height ==> StringWidth(r[i]) <= v.width + 1)
  {
    var r := GetVisibleLines(v, b);
    forall i | 0 <= i < v.height
      ensures v.startRow + i >= GetLineCount(b) ==> r[i] == ""
      ensures v.startRow + i < GetLineCount(b) ==> r[i] == VisibleSlice(GetLine(b, v.startRow + i), v.startCol, v.width)
      ensures StringWidth(r[i]) <= v.width + 1
    {
      assert r[i] == VisibleRow(v, b, i);
    }
  }

  // ---------------------------------------------------------------------------
  // Coordinate transforms

  /** `screenToBufferPosition`: offset by the window origin; the character
      index is resolved through `getCharIndexFromDisplayWidth`. */
  function ScreenToBufferPosition(v: ViewportInfo, screenRow: int, screenCol: int, b: Buffer): (p: BufferPoint)
    ensures p.row == v.startRow + screenRow && p.displayCol == v.startCol + screenCol
    ensures p.col == CharIndexFromDisplayWidth(GetLine(b, p.row), p.displayCol)
    ensures p.col <= |GetLine(b, p.row)|
    ensures p.displayCol > 0 ==> StringWidth(GetLine(b, p.row)[..p.col]) <= p.displayCol
  {
    var row := v.startRow + screenRow;
    var line := GetLine(b, row);
    var displayCol := v.startCol + screenCol;
    BufferPoint(row, CharIndexFromDisplayWidth(line, displayCol), displayCol)
  }

  /** `bufferToScreenPosition`: the inverse offset. */
  function BufferToScreenPosition(v: ViewportInfo, row: int, displayCol: int): (s: ScreenPoint)
    ensures s.row + v.startRow == row && s.col + v.startCol == displayCol
  {
    ScreenPoint(row - v.startRow, displayCol - v.startCol)
  }

  /** Screen -> buffer -> screen is the identity. */
  lemma ScreenRoundTrip(v: ViewportInfo, screenRow: int, screenCol: int, b: Buffer)
    ensures var p := ScreenToBufferPosition(v, screenRow, screenCol, b);
            BufferToScreenPosition(v, p.row, p.displayCol) == ScreenPoint(screenRow, screenCol)
  {
  }

  /** Buffer -> screen -> buffer gives the cursor back when its display column
      is consistent with its line and the line has no zero-width code point. */
  lemma BufferRoundTrip(v: ViewportInfo, cursor: Position, b: Buffer)
    requires cursor.row < |b.lines|
    requires ConsistentWith(cursor, b.lines[cursor.row]) && NoZeroWidth(b.lines[cursor.row])
    ensures var s := BufferToScreenPosition(v, cursor.row, cursor.displayCol);
            ScreenToBufferPosition(v, s.row, s.col, b) == BufferPoint(cursor.row, cursor.col, cursor.displayCol)
  {
    var line := b.lines[cursor.row];
    ConsistentColumnFromWidth(line, cursor);
    var s := BufferToScreenPosition(v, cursor.row, cursor.displayCol);
    assert v.startRow + s.row == cursor.row && v.startCol + s.col == cursor.displayCol;
    assert GetLine(b, cursor.row) == line;
    var q := ScreenToBufferPosition(v, s.row, s.col, b);
    assert q.col == CharIndexFromDisplayWidth(line, cursor.displayCol);
  }

  /** A consistent cursor's column is the one its display column resolves to. */
  lemma ConsistentColumnFromWidth(line: string, p: Position)
    requires ConsistentWith(p, line) && NoZeroWidth(line)
    ensures CharIndexFromDisplayWidth(line, p.displayCol) == p.col
  {
    IndexWidthRoundTrip(line, p.col);
    assert DisplayWidthFromCharIndex(line, p.col) == p.displayCol;
  }
}
