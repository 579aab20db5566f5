/** The earlier text-editing window of src/Window.cpp: the same fields as the
    one in src/TextEditWindow.cpp, but navigation that never leaves the buffer,
    ENTER that ends the current line with a newline, BACKSPACE that cuts the
    line at the cursor, and no re-wrapping. */
module Window {
  import opened Buffers
  import opened Keys

  class TextEditWindowV2 {
    /** The lines being edited. */
    const buffer: Buffer
    var cursorLine: nat
    var cursorCol: nat
    /** The first line shown. */
    var topLine: nat

    /** The cursor is on an existing line and the view starts at most one past the last line. */
    ghost predicate Valid()
      reads this, buffer
    {
      cursorLine < |buffer.lines| && topLine <= |buffer.lines|
    }

    /** The window starts on a fresh buffer with the cursor and the view at the top. */
    constructor ()
      ensures Valid() && fresh(buffer)
      ensures buffer.lines == [""] && buffer.wrappedLines == [] && !buffer.bufferModified
      ensures cursorLine == 0 && cursorCol == 0 && topLine == 0
    {
      buffer := new Buffer();
      cursorLine, cursorCol, topLine := 0, 0, 0;
    }

    /** One key press. A typed character needs the cursor within its line: the
        C++ code inserts through an iterator that may not pass the line's end. */
    method InputHandler(key: Key) returns (outcome: Outcome)
      requires Valid()
      requires key.Char? ==> cursorCol <= |buffer.lines[cursorLine]|
      modifies this, buffer`lines
      ensures Valid()
      ensures topLine == old(topLine)
      ensures outcome == OutOfRange ==> unchanged(this, buffer)
      // LEFT: back one column, or to the end of the previous line
      ensures key.Left? ==>
        && outcome == Done && unchanged(buffer)
        && if old(cursorCol) != 0 then cursorLine == old(cursorLine) && cursorCol == old(cursorCol) - 1
           else if old(cursorLine) != 0 then
             cursorLine == old(cursorLine) - 1 && cursorCol == |buffer.lines[cursorLine]|
           else cursorLine == 0 && cursorCol == 0
      // RIGHT: forward one column, else to the start of the next line if there is one
      ensures key.Right? ==>
        && outcome == Done && unchanged(buffer)
        && if old(cursorCol) + 1 < |old(buffer.lines[cursorLine])| then
             cursorLine == old(cursorLine) && cursorCol == old(cursorCol) + 1
           else if old(cursorLine) + 1 < |buffer.lines| then
             cursorLine == old(cursorLine) + 1 && cursorCol == 0
           else cursorLine == old(cursorLine) && cursorCol == old(cursorCol)
      // UP and DOWN: one line, staying inside the buffer; the column is kept
      ensures key.Up? ==>
        && outcome == Done && unchanged(buffer) && cursorCol == old(cursorCol)
        && cursorLine == if old(cursorLine) != 0 then old(cursorLine) - 1 else 0
      ensures key.Down? ==>
        && outcome == Done && unchanged(buffer) && cursorCol == old(cursorCol)
        && cursorLine == if old(cursorLine) + 1 < |buffer.lines| then old(cursorLine) + 1 else old(cursorLine)
      // ENTER: a newline at the end of the current line, then an empty line at the end of the buffer
      ensures key.Enter? ==>
        && outcome == Done
        && buffer.lines == old(buffer.lines)[old(cursorLine) := old(buffer.lines[cursorLine]) + "\n"] + [""]
        && cursorLine == old(cursorLine) && cursorCol == old(cursorCol)
      // BACKSPACE: the line keeps its first `cursorCol` characters; past its end, `erase` throws
      ensures key.Backspace? ==>
        var l := old(buffer.lines[cursorLine]);
        if old(cursorCol) > |l| then outcome == OutOfRange
        else
          && outcome == Done
          && buffer.lines == old(buffer.lines)[old(cursorLine) := l[..old(cursorCol)]]
          && cursorLine == old(cursorLine) && cursorCol == old(cursorCol)
      // any other key: inserted at the cursor, which then moves one column on
      ensures key.Char? ==>
        && outcome == Done
        && buffer.lines == old(buffer.lines)[old(cursorLine) :=
                             InsertChar(old(buffer.lines[cursorLine]), old(cursorCol), key.c)]
        && cursorLine == old(cursorLine) && cursorCol == old(cursorCol) + 1
    {
      outcome := Done;
      match key
      case Left =>
        if cursorCol != 0 {
          cursorCol := cursorCol - 1;
        } else if cursorLine != 0 {
          cursorLine := cursorLine - 1;
          cursorCol := if |buffer.lines[cursorLine]| == 0 then 0 else |buffer.lines[cursorLine]|;
        }
      case Right =>
        if cursorCol + 1 < |buffer.lines[cursorLine]| {
          cursorCol := cursorCol + 1;
        } else if cursorLine + 1 < |buffer.lines| {
          cursorLine := cursorLine + 1;
          cursorCol := 0;
        }
      case Up =>
        if cursorLine != 0 {
          cursorLine := cursorLine - 1;
        }
      case Down =>
        if cursorLine + 1 < |buffer.lines| {
          cursorLine := cursorLine + 1;
        }
      case Enter =>
        buffer.SetLine(cursorLine, buffer.lines[cursorLine] + "\n");
        buffer.AppendLine("");
      case Backspace =>
        var l := buffer.lines[cursorLine];
        if cursorCol > |l| {
          outcome := OutOfRange;
          return;
        }
        buffer.SetLine(cursorLine, l[..cursorCol]);
      case Char(c) =>
        buffer.SetLine(cursorLine, InsertChar(buffer.lines[cursorLine], cursorCol, c));
        cursorCol := cursorCol + 1;
    }

    /** Moves the view up a line unless it is at the top. */
    method ScrollUp()
      requires Valid()
      modifies this`topLine
      ensures Valid()
      ensures topLine == if old(topLine) != 0 then old(topLine) - 1 else 0
    {
      if topLine != 0 {
        topLine := topLine - 1;
      }
    }

    /** Moves the view down a line unless it already stands at the line count. */
    method ScrollDown()
      requires Valid()
      modifies this`topLine
      ensures Valid()
      ensures topLine == if old(topLine) != |buffer.lines| then old(topLine) + 1 else old(topLine)
    {
      var size := buffer.GetBufferSize();
      if topLine != size {
        topLine := topLine + 1;
      }
    }
  }
}
